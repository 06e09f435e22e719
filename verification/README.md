# Packing, undo, drawing and dispatch: a verified model

This project models the algorithmic core of five pieces of the repository and proves what each of
them is for.

- **The skyline rectangle packer** (`lib/imgui/imstb_rectpack.h`). `Skyline`, `Placement` and
  `Packing` describe skylines as values: the height function a list of corners denotes, the
  measurements taken of it, the choice of a position, and whole runs. `Packer` is the linked list of
  nodes with its free list, updated in place; `PackRects` is the sort, place and unsort over an array
  of rectangles, with `Sorting` for `qsort`; `PackCalls` is about several such calls on one target, `BestFit` about
  what best-fit's positions are worth.
- **The undo engine of the text editor** (`lib/imgui/imstb_textedit.h`). `EditHistory` describes
  histories as values and compares them with an ideal editor that forgets nothing. `UndoEngine` is the
  engine over its two fixed arrays, in which two stacks of records and two stacks of characters grow
  towards each other.
- **Draw lists and their channels** (`lib/imgui/imgui_draw.cpp`). `DrawCommands` says what a renderer
  makes of a command buffer; `DrawChannels` what splitting, switching and merging do; `DrawRuns`
  compares whole runs with a painter that has no commands at all; `DrawCompact` says that no draw call
  is one too many; `DrawLists` holds the two classes.
  `Outlines` covers the indices and vertices of strokes and fills.
- **Embedded font data and glyph ranges** (`lib/imgui/imgui_draw.cpp`, `lib/imgui/imgui.h`).
  `Adler` is the checksum of RFC 1950, section 2.2, `Decompress` the decompressor, `GlyphRanges` the
  bitmap of needed characters.
- **The opcode dispatch generator** (`tools/gen_dispatch64.py`). `Dispatch` has conditions, cascades
  and jump tables; `DispatchGenerator` the transformation of the source file.

`Common` holds what several modules share. Where the code works in place, a class or a method on an
array is proved equal to a function on values, and the properties are proved of that function.
Conventions: `Inv`, `Valid`, `Wf` are the
invariants kept by every operation; a row that names a method states its effect by such a function.

## Where the code and its promises part

- `stbrp_init_target` promises that without `allow_out_of_mem` quantised widths keep the packer from
  running out of nodes. Positions are searched with the rounded width but the raw width is linked in,
  so under either heuristic this holds exactly when there are at least as many nodes as columns, or
  the target is too low for it to matter: of height 0, or of height 1 and less than the alignment
  wider than there are nodes (`Packing.QuantisingNeverRefusesIff`).
- For the same reason best-fit with an alignment above one can raise columns to the right of the
  rectangle. The insertion is exact just when a corner lies in [x, x + w]
  (`Placement.InsertIsExactIff`, `Placement.BestFitRaisesBeyondTheRectangle`), and three packed
  rectangles are enough to get to a skyline where the next one has none (`Packing.StairsAreReached`,
  `Packing.NextIsRaisedBeyond`).
- An undo that has to discard redo records moves the record it is filing along with them: its
  characters are in place, but its position and lengths are those of the record that was on top of
  the redo stack. `UndoEngine.Editor.Undo` says that the undo is the undo of the history if and only
  if nothing has to be discarded, and what it is otherwise. Two insertions are enough
  (`EditHistory.DiscardsCanBeForced`): undoing both empties the text, and the record then on top of
  the redo stack inserts at a position beyond the end of it.
- An undo that finds no room for the characters it deletes drops them, and the records below it on the
  redo stack are then redone on a text that lacks them. Redoing never goes beyond the text, at whatever
  point of a run it is asked for, if and only if every such undo leaves the records below it room
  (`EditHistory.RedosStayInsideIff`; for the next record alone, `EditHistory.DropStrandsIff`). A paste
  as long as the character buffer, one character typed behind it, two undos and one redo are enough to
  leave a record that inserts beyond the text (`EditHistory.DropsCanStrandRedo`);
  `STB_TEXTEDIT_INSERTCHARS` asserts that there is none (`lib/imgui/imgui_widgets.cpp:3225-3229`).
  Where nothing is dropped there is none (`EditHistory.RunAgrees`).
- Switching channels does not update the open command, so a clip rectangle pushed after the split is
  not in force on a channel not yet drawn to (`DrawChannels.SwitchIsReadyIff`,
  `DrawChannels.StaleAfterSplit`). What is drawn is clipped as the stacks say if and only if all
  indices that are not released again were reserved while the open command carried the tops of the
  stacks (`DrawRuns.PaintsIffSurvivorsInTime`, `DrawRuns.MergedRunPaints`); switching first and pushing or popping the
  clip rectangle after it, as the columns do, is enough for that (`DrawRuns.SwitchThenClipIsReady`).
- A set of characters survives `BuildRanges` and `AddRanges` just when it has neither character 0 nor
  character 0xFFFF (`GlyphRanges.RoundTripIff`).
- The dispatch generator says that semantics are provably unchanged. That holds for the conditions the
  cascade uses, but `!p.rex` or a negated `fetchByte` test would be guessed away
  (`Dispatch.NegatedPrefixIsLost`). And whatever stands between the line that opens the table and the
  end mark is dropped when the table is regenerated (`DispatchGenerator.StripDropsTable`); the
  repository's `source/emulation/cpu/cpu64.cpp` has blocks for JRCXZ, LOOP, LODS and ENTER there, at
  lines 1118 to 1248.

## Model

| member | source | states |
|---|---|---|
| Skyline.MeasureIsMax | lib/imgui/imstb_rectpack.h:295-343 | the y that find_min_y reports is the greatest skyline height over the span |
| Skyline.MeasureIsExact | lib/imgui/imstb_rectpack.h:318-341 | the waste, accumulated as the level rises, is the sum over the columns of y less the column's height |
| Skyline.WasteExactIff | lib/imgui/imstb_rectpack.h:318-341 | over arbitrary skylines, built by a run or not, and for a first segment and start column, the waste is right if and only if the span starts at the corner or above the floor; no run meets the other case |
| Packing.ReachableWasteIsExact | lib/imgui/imstb_rectpack.h:295-343 | on every skyline a run builds, from any state and under both heuristics and any alignment, the probe of any span at any position has the greatest height over it and exactly the area left below |
| Placement.SlideToCorner | lib/imgui/imstb_rectpack.h:369-395 | sliding a span left to the nearest corner never raises its resting height |
| Placement.ChoiceIsLowest | lib/imgui/imstb_rectpack.h:369-449 | the y found by trying corners only is the lowest over every integer position, under both heuristics |
| Placement.BottomLeftIsLeftmost | lib/imgui/imstb_rectpack.h:369-395 | bottom-left's position is the leftmost of all integer positions at that height, not only of the corners |
| BestFit.BestFitWastesLeast | lib/imgui/imstb_rectpack.h:397-449 | on every skyline a run builds, best-fit's position leaves the least area unused of all integer positions as low, and is the leftmost of those that leave as little |
| Placement.ChooseIffFits | lib/imgui/imstb_rectpack.h:357-395 | a position is found if and only if the rectangle fits at some integer position |
| Placement.HeuristicsAgree | lib/imgui/imstb_rectpack.h:380-395 | bottom-left and best-fit pack the same rectangles on one skyline, at the same height |
| Placement.InsertIsValid | lib/imgui/imstb_rectpack.h:468-503 | corners stay strictly increasing, start at 0 and end in the sentinel |
| Placement.InsertRaises | lib/imgui/imstb_rectpack.h:468-503 | an insertion sets one stretch of the height function to the top of the rectangle and leaves every other column |
| Placement.InsertIsExactIff | lib/imgui/imstb_rectpack.h:491-503 | that stretch is the rectangle's own columns if and only if a corner lies in [x, x + w] |
| Placement.ChosenInsertIsExact | lib/imgui/imstb_rectpack.h:351-449 | positions found by bottom-left, or by best-fit with an unrounded width, meet that condition |
| Placement.BestFitRaisesBeyondTheRectangle | lib/imgui/imstb_rectpack.h:397-449 | a skyline on which best-fit with a rounded width raises a column beside the rectangle |
| Packing.PackKeepsInv | lib/imgui/imstb_rectpack.h:453-530 | placing any rectangle keeps the invariant: a valid skyline below no placed rectangle, whose floor is its last segment, nodes in use plus free nodes equal num_nodes + 2, placed rectangles inside and disjoint |
| Packing.RunPlacesApart | lib/imgui/imstb_rectpack.h:558-596 | any two rectangles placed in one run, of any length and order, do not overlap |
| Packing.RunKeepsClear | lib/imgui/imstb_rectpack.h:107-112 | continuing into the same target never overlaps what was packed there before |
| Packing.EnoughNodesNeverRunOut | lib/imgui/imstb_rectpack.h:141-142 | with num_nodes at least the width the free list is never empty, and a rectangle is packed if and only if it fits somewhere |
| Packing.QuantisingNeverRefusesIff | lib/imgui/imstb_rectpack.h:141-146 | with the default alignment, under both heuristics and for every height, no rectangle that fits is ever refused, over all runs, if and only if num_nodes is at least the width, the height is 0, or the height is 1 and the width less than num_nodes plus the alignment |
| Packing.StairsAreReached | lib/imgui/imstb_rectpack.h:397-449 | three rectangles packed into an empty target by best-fit with the default alignment lead to the skyline on which best-fit raises a column beside the rectangle, with a node left |
| Packing.NextIsRaisedBeyond | lib/imgui/imstb_rectpack.h:453-503 | from there, packing a rectangle one column wide at column 1 raises column 2 from 1 to 3 |
| Packer.Context.constructor | lib/imgui/imstb_rectpack.h:262-292 | chains the caller's nodes into the free list and starts from the flat skyline with the default alignment, the least with which the nodes span the width |
| Packer.Context.SetupAllowOutOfMem | lib/imgui/imstb_rectpack.h:242-260 | sets the alignment to 1, or to the least with which the nodes span the width, at any time without harm |
| Packer.Context.SetupHeuristic | lib/imgui/imstb_rectpack.h:230-240 | changes the heuristic and nothing else |
| Packer.Context.FindMinY | lib/imgui/imstb_rectpack.h:295-343 | the pointer loop computes the probe of the span |
| Packer.Context.FindBestPos | lib/imgui/imstb_rectpack.h:351-451 | the two pointer scans end at the best candidate and at the link to insert behind, or report none |
| Packer.Context.PackRectangle | lib/imgui/imstb_rectpack.h:453-530 | relinking active and free list in place does to the state what packing does to its value; both lists stay null-terminated chains of distinct, separate nodes |
| PackRects.PackRects | lib/imgui/imstb_rectpack.h:558-596 | the array is the input with positions of a run from tall to low, and among equally tall from wide to narrow, back in the caller's order, and the result says whether all were packed |
| PackRects.PackedRectsAreApart | lib/imgui/imstb_rectpack.h:91-115 | rectangles one call flags as packed and that are not empty lie inside the target, apart from each other and from every rectangle placed before |
| PackRects.WhatIsWritten | lib/imgui/imstb_rectpack.h:572-592 | an empty rectangle comes back at the origin and as packed, one not packed at the largest coordinates, and any other inside the target |
| PackRects.FlaggedIsPlaced | lib/imgui/imstb_rectpack.h:558-596 | a rectangle a call flags as packed is from then on one of those placed |
| PackCalls.FlaggedInAnyCallsAreApart | lib/imgui/imstb_rectpack.h:91-115 | over any sequence of calls on one target, with heuristic and alignment set anew between them, the rectangles flagged in whichever calls lie inside the target and pairwise apart |
| Sorting.Sort | lib/imgui/imstb_rectpack.h:568 | what is relied on of qsort: an ordered permutation |
| Sorting.OrderedTagsAreIndices | lib/imgui/imstb_rectpack.h:585 | sorting by the indices stored in was_packed puts every rectangle back in its own place |
| EditHistory.InverseRestores | lib/imgui/imstb_textedit.h:1194-1258 | applying a record's inverse restores the text, and the inverse of the inverse is the record |
| EditHistory.RedoAlwaysHasRoom | lib/imgui/imstb_textedit.h:1273-1281 | after every run from an empty history that forces no discard and redoes nothing beyond the text, what the next redo deletes fits between the two pools of characters, so the branch for want of room is never taken |
| EditHistory.RedoThenUndo | lib/imgui/imstb_textedit.h:1194-1311 | redo then undo is the identity on text and both stacks |
| EditHistory.UndoThenRedoIff | lib/imgui/imstb_textedit.h:1212-1256 | where no discard is forced, undo then redo is the identity if and only if nothing was deleted or the deleted characters and those kept for undoing are less than the buffer |
| EditHistory.RunRemembers | lib/imgui/imstb_textedit.h:1098-1336 | after any run that forces no discard and redoes nothing beyond the text, redo characters dropped or not, the history is within its bounds and its undo stack leads back through the texts shown before |
| EditHistory.RunAgrees | lib/imgui/imstb_textedit.h:1098-1336 | where no discard is forced and no redo character dropped, and nothing is asked of a redo, every record redone lies within the text, and the text and both stacks agree with the ideal editor's past and future |
| EditHistory.RedosStayInsideIff | lib/imgui/imstb_textedit.h:1220-1223 | over any run from an empty history that forces no discard, all that can be redone at any point of it lies within the text if and only if every undo that drops characters leaves the records below it room |
| EditHistory.CanRedoIff | lib/imgui/imstb_textedit.h:1262-1311 | a redo stack can be redone to its end if and only if its positions and lengths fit the length of the text as it changes |
| EditHistory.DropStrandsIff | lib/imgui/imstb_textedit.h:1220-1223 | after an undo that drops characters and its redo, the next record applies if and only if its position and deleted length and the dropped characters fit the text before |
| EditHistory.DropsCanStrandRedo | lib/imgui/imstb_textedit.h:1220-1223 | an insertion as long as the buffer and a shorter one behind it, undone twice and redone once, leave an empty text and a record beyond it, with no discard forced |
| EditHistory.UndoShowsThePast | lib/imgui/imstb_textedit.h:1098-1336 | after any run that forces no discard and redoes nothing beyond the text the k-th undo in a row shows the text before the k-th most recent step in effect, however many older records were slid out and redo characters dropped |
| EditHistory.DiscardsCanBeForced | lib/imgui/imstb_textedit.h:1225-1235 | any two insertions whose characters fit the buffer singly but not together, undone twice, force a redo record to be discarded, and leave an empty text with a redo record that does not apply to it |
| UndoEngine.Editor.constructor | lib/imgui/imstb_textedit.h:1339-1343 | an empty history whose redo stacks begin at the far ends of the arrays |
| UndoEngine.Editor.FlushRedo | lib/imgui/imstb_textedit.h:1091-1095 | empties the redo side |
| UndoEngine.Editor.DiscardUndo | lib/imgui/imstb_textedit.h:1098-1113 | the oldest undo record and its characters go, and the rest slides down and stays spelled out |
| UndoEngine.Editor.DiscardRedo | lib/imgui/imstb_textedit.h:1120-1148 | the oldest redo record and its characters go, and the rest slides up |
| UndoEngine.Editor.CreateUndoRecord | lib/imgui/imstb_textedit.h:1150-1172 | redo is flushed, and the discard loop ends and leaves the recent records that make room and a slot behind them, or none if there can be no room |
| EditHistory.DropForKeepsMost | lib/imgui/imstb_textedit.h:1168-1169 | those are the longest run of recent records that makes room for the characters |
| EditHistory.RecordedKeepsMost | lib/imgui/imstb_textedit.h:1150-1172 | a new record is filed behind the longest run of recent ones for which there is room, in records and characters together, and where its characters could never fit nothing is kept |
| UndoEngine.Editor.CreateUndo | lib/imgui/imstb_textedit.h:1174-1192 | files a record with room for its characters, or forgets all undo records if they could never fit |
| UndoEngine.Editor.MakeUndoReplace | lib/imgui/imstb_textedit.h:1328-1336 | files the record of a replacement with the characters about to be deleted |
| UndoEngine.Editor.Undo | lib/imgui/imstb_textedit.h:1194-1260 | performs the undo step of the history in place if and only if no redo record has to be discarded; if one has, text and undo side are still right, exactly the oldest redo records in the way are gone, the deleted characters are kept, and the slot that has them has the position and lengths of the former top record; the cursor goes behind what is put in |
| UndoEngine.Editor.Redo | lib/imgui/imstb_textedit.h:1262-1311 | performs the redo step of the history in place, or tells that the record lies beyond the text, if and only if it does; its branch for want of room is never taken |
| UndoEngine.Editor.Delete | lib/imgui/imstb_textedit.h:589-594 | records and deletes: one step of the history |
| UndoEngine.Editor.Insert | lib/imgui/imstb_textedit.h:751-756 | inserts and records: one step of the history |
| UndoEngine.Editor.Replace | lib/imgui/imstb_textedit.h:742-748 | one record for a deletion and an insertion: one step of the history |
| DrawCommands.UpdateClipRectKeeps | lib/imgui/imgui_draw.cpp:451-468 | adding, merging back or relabelling a command changes nothing shown and keeps the commands a partition of the index buffer |
| DrawCommands.UpdateTextureIDKeeps | lib/imgui/imgui_draw.cpp:470-487 | the same for the texture |
| DrawCommands.UpdatesMakeReady | lib/imgui/imgui_draw.cpp:451-487 | after both updates the last command carries both current settings and no callback, from any state |
| DrawCommands.AddCallbackShows | lib/imgui/imgui_draw.cpp:435-447 | the callback comes after all that was drawn and before all that follows |
| DrawCommands.PrimReserveShows | lib/imgui/imgui_draw.cpp:539-560 | reserved indices are drawn under the open command's settings, and all earlier draws stay |
| DrawCommands.UnreserveUndoesReserve | lib/imgui/imgui_draw.cpp:563-571 | releasing a whole reservation undoes it |
| DrawChannels.SplitKeeps | lib/imgui/imgui_draw.cpp:1310-1341 | channel 0 shows what the list showed and the others nothing, whatever old channels held |
| DrawChannels.SwitchKeeps | lib/imgui/imgui_draw.cpp:1403-1415 | switching moves buffers about and changes what no channel shows |
| DrawChannels.SwitchIsReadyIff | lib/imgui/imgui_draw.cpp:1403-1415 | the command landed on is up to date if and only if its channel was left under the current settings |
| DrawChannels.StaleAfterSplit | lib/imgui/imgui_draw.cpp:1333-1339 | a clip rectangle pushed after the split is in force on a fresh channel if and only if it is the old one |
| DrawChannels.JoinShows | lib/imgui/imgui_draw.cpp:1366-1383 | joining first and last command and giving new offsets adds exactly what the channel shows |
| DrawChannels.MergeShows | lib/imgui/imgui_draw.cpp:1348-1401 | the merged list shows channel 0, then 1, and so on; every IdxOffset is the sum of the counts before it; the list is ready to go on |
| DrawRuns.UnreserveShows | lib/imgui/imgui_draw.cpp:563-571 | releasing indices takes exactly the last draws away |
| DrawRuns.StepListShows | lib/imgui/imgui_draw.cpp:423-571 | each operation changes what is shown by its own record and keeps a ready list ready |
| DrawRuns.MergeAfterAnyRun | lib/imgui/imgui_draw.cpp:1310-1415 | for every interleaving of operations and switches the merge shows the channels' logs in order |
| DrawRuns.UnsplitRunPaints | lib/imgui/imgui_draw.cpp:423-571 | over any run every reserved index is shown under the settings on top of the stacks when it was reserved |
| DrawRuns.PaintsIffSurvivorsInTime | lib/imgui/imgui_draw.cpp:1403-1415 | over any run with switches and releases, every index is shown on its channel under the settings on top of the stacks when it was reserved if and only if each one not released again met an open command carrying them; and which ones differ if not |
| DrawRuns.TimelyOrReleased | lib/imgui/imgui_draw.cpp:563-571 | that is so if every reservation meets such a command, and only then if nothing is released |
| DrawRuns.MergedRunPaints | lib/imgui/imgui_draw.cpp:1310-1415 | the merge after a run shows what the painter painted, channel after channel, if and only if the indices not released again were so reserved |
| DrawRuns.SplitDrawMerge | lib/imgui/imgui_draw.cpp:1310-1415 | the same from end to end: an unsplit list is split, drawn to in any interleaving of channels, and merged |
| DrawRuns.SwitchThenClipIsReady | lib/imgui/imgui_widgets.cpp:7450-7471 | switching and then pushing or popping a clip rectangle leaves an up-to-date open command on any channel left under the current texture |
| DrawCompact.StepKeepsCompact | lib/imgui/imgui_draw.cpp:449-487 | on a list with an up-to-date open command, no operation but an explicit new command leaves neighbouring commands that could be one |
| DrawCompact.RunStaysCompact | lib/imgui/imgui_draw.cpp:423-571 | nor does any run of them |
| DrawCompact.MergeIsCompact | lib/imgui/imgui_draw.cpp:1343-1401 | merging channels without such neighbours gives a list without such neighbours, across any number of empty channels |
| DrawCompact.StepKeepsLean | lib/imgui/imgui_draw.cpp:435-487 | no operation but an explicit new command leaves an empty command other than the last |
| DrawCompact.MergeIsLean | lib/imgui/imgui_draw.cpp:1355-1399 | nor does merging, however many channels are empty |
| DrawLists.DrawList.UpdateClipRect | lib/imgui/imgui_draw.cpp:451-468 | does this in place |
| DrawLists.DrawList.UpdateTextureID | lib/imgui/imgui_draw.cpp:470-487 | does this in place |
| DrawLists.DrawList.AddCallback | lib/imgui/imgui_draw.cpp:435-447 | does this in place |
| DrawLists.DrawList.PrimReserve | lib/imgui/imgui_draw.cpp:539-560 | grows the last command and the index buffer together |
| DrawLists.Splitter.SplitInto | lib/imgui/imgui_draw.cpp:1310-1341 | resizes and refills the channels in place |
| DrawLists.Splitter.SetCurrentChannel | lib/imgui/imgui_draw.cpp:1403-1415 | exchanges the buffers in place |
| DrawLists.Splitter.JoinFirst | lib/imgui/imgui_draw.cpp:1368-1374 | through the pointer to the last command so far, wherever that lies, joins the next channel's first command to it |
| DrawLists.Splitter.WriteOut | lib/imgui/imgui_draw.cpp:1385-1396 | grows the buffers once and copies every channel behind the one before |
| DrawLists.Splitter.Merge | lib/imgui/imgui_draw.cpp:1348-1401 | the two loops make the list the fold of all channels, so it shows them one after the other |
| Outlines.StrokeIndicesFit | lib/imgui/imgui_draw.cpp:643-645 | a smooth stroke has exactly the reserved number of indices, each a vertex of its own |
| Outlines.EveryVertexIsDrawn | lib/imgui/imgui_draw.cpp:694-699 | every vertex of a stroke, open or closed, thin or thick, is a corner of a triangle |
| Outlines.SegmentIsTiled | lib/imgui/imgui_draw.cpp:694-699 | each strip of a segment, between neighbouring lines of vertices across the stroke, is tiled by a pair of triangles: all its four corners, one common diagonal, every side on just one |
| Outlines.StripsAreAll | lib/imgui/imgui_draw.cpp:694-699 | each strip has a pair of its own and no triangle is left over |
| Outlines.StrokeIsTiled | lib/imgui/imgui_draw.cpp:662-760 | so are the strips of every segment of a stroke between the vertices of its own two points |
| Outlines.StrokeHasSegment | lib/imgui/imgui_draw.cpp:662-760 | every segment of a stroke, the closing one included, has its triangles at its place |
| Outlines.SegmentsJoin | lib/imgui/imgui_draw.cpp:631-637 | segments join each point to the next, and the last to the first if and only if the line is closed |
| Outlines.AcrossIsInOrder | lib/imgui/imgui_draw.cpp:662-760 | going across, a point's vertices follow each other from one outer edge to the other and lie evenly about the line |
| Outlines.SegmentsMeet | lib/imgui/imgui_draw.cpp:662-690 | the two segments whose normals a point's vertices are offset along are the ones that end and begin there, or the only one at an open end |
| Outlines.StrokeSmooth | lib/imgui/imgui_draw.cpp:636-777 | reads no normal or point before it is written, and each vertex is offset along the normals of the segments that meet at its point |
| Outlines.StrokePlain | lib/imgui/imgui_draw.cpp:781-808 | writes all reserved indices and vertices, within bounds |
| Outlines.FillSmooth | lib/imgui/imgui_draw.cpp:823-872 | writes all reserved indices, a fan and a rim, and both vertices of each point from its own two sides' normals |
| Outlines.FillPlain | lib/imgui/imgui_draw.cpp:876-890 | writes all reserved indices and one vertex for each point |
| Outlines.PlainIsQuad | lib/imgui/imgui_draw.cpp:798-801 | a plain segment's four vertices go round it: each of the two points on each of the two sides |
| Outlines.PlainTiles | lib/imgui/imgui_draw.cpp:803-805 | the two triangles of a plain segment tile the quad of its four vertices |
| Outlines.FanTiles | lib/imgui/imgui_draw.cpp:832-836 | each side of the polygon belongs to one triangle of the fan, each inner spoke to the two beside it, the outer two to one, and no other corners are joined |
| Outlines.RimTiles | lib/imgui/imgui_draw.cpp:867-870 | the rim's two triangles for a side tile the quad between inner and outer vertices |
| Outlines.FanFits | lib/imgui/imgui_draw.cpp:832-836 | the fan's indices are vertices of the polygon |
| Outlines.RimFits | lib/imgui/imgui_draw.cpp:867-870 | the rim's indices are vertices of the polygon |
| Outlines.StrokeSurvivesIff | lib/imgui/imgui_draw.cpp:694-699 | sixteen bits keep a smooth stroke's indices if and only if the first index and the vertices reserved are at most 0x10000 together |
| Outlines.PlainStrokeSurvivesIff | lib/imgui/imgui_draw.cpp:803-805 | the same for plain strokes |
| Outlines.SmoothFillSurvivesIff | lib/imgui/imgui_draw.cpp:832-870 | the same for smooth fills |
| Outlines.PlainFillSurvivesIff | lib/imgui/imgui_draw.cpp:884-888 | the same for plain fills |
| Adler.SumsAreTotals | lib/imgui/imgui_draw.cpp:3305-3334 | the definition of section 2.2 of RFC 1950 is the sum of the bytes and their weighted sum, modulo 65521 |
| Adler.ChecksumInPieces | lib/imgui/imgui_draw.cpp:3305-3308 | continuing a checksum over a second buffer is the checksum of both |
| Adler.NoOverflow | lib/imgui/imgui_draw.cpp:3309-3327 | 5552 bytes never take a sum to 2^32, even from sums not yet reduced |
| Adler.Checksum | lib/imgui/imgui_draw.cpp:3305-3334 | the blocked, unrolled loop with the late modulo computes the definition in 32 bits for every length and start, an empty first block included |
| Decompress.RepeatAt | lib/imgui/imgui_draw.cpp:3266-3273 | in an overlapping match each byte is the one dist before it |
| Decompress.MatchPlaysIff | lib/imgui/imgui_draw.cpp:3266-3273 | a match plays if and only if there is a continuation in which each byte is the one dist before it, and plays the only one |
| Decompress.Decompressor.Match | lib/imgui/imgui_draw.cpp:3266-3273 | the forward copy is that match, or nothing is written and the position is past the barrier |
| Decompress.Decompressor.DecompressToken | lib/imgui/imgui_draw.cpp:3288-3303 | each form of token is read and played |
| Decompress.Decompressor.Decompress | lib/imgui/imgui_draw.cpp:3336-3366 | ends on every stream, writes nothing past the declared length, and returns the length with exactly the decoded bytes if and only if the stream is in order |
| Decompress.EncodedParses | lib/imgui/imgui_draw.cpp:3288-3303 | reading a token written in any of the nine forms that has room for it gives it back and stops right behind it |
| Decompress.ParsedIsEncoded | lib/imgui/imgui_draw.cpp:3288-3303 | and whatever is read stands there in one of those forms |
| Decompress.StreamDecompresses | lib/imgui/imgui_draw.cpp:3336-3366 | the stream of any list of tokens, each in any such form, decompresses to what the tokens play |
| Decompress.DecompressedIsStream | lib/imgui/imgui_draw.cpp:3336-3366 | and only such streams decompress |
| Decompress.LiteralsPlay | lib/imgui/imgui_draw.cpp:3293-3298 | every byte string is played by some token list |
| GlyphRanges.SetOneBit | lib/imgui/imgui.h:2091-2092 | setting a bit in the packed words sets that bit and no other |
| GlyphRanges.RangesAreExact | lib/imgui/imgui_draw.cpp:2565-2577 | the ranges are in order, neither overlap nor touch, and cover exactly the set |
| GlyphRanges.OrderedCoverIsUnique | lib/imgui/imgui_draw.cpp:2565-2577 | no other such list covers the set |
| GlyphRanges.RoundTripIff | lib/imgui/imgui_draw.cpp:2558-2577 | reading the ranges back gives the set if and only if it has neither 0 nor 0xFFFF, and what happens otherwise |
| GlyphRanges.Builder.SetBit | lib/imgui/imgui.h:2092 | sets one bit of the set in place |
| GlyphRanges.Builder.AddRanges | lib/imgui/imgui_draw.cpp:2558-2563 | adds every range up to the terminator, and never ends exactly when a range comes whose loop, turn by turn of its 16-bit counter, never does |
| GlyphRanges.NeverEndsIff | lib/imgui/imgui_draw.cpp:2561 | the loop over a range turns for ever if and only if the range stops at the largest 16-bit number |
| GlyphRanges.Builder.BuildRanges | lib/imgui/imgui_draw.cpp:2565-2577 | appends the ranges of the set |
| Dispatch.PlainIsCovered | tools/gen_dispatch64.py:45-55 | could_match never guesses away a condition that can hold, as long as only opcode tests and single mask tests are negated |
| Dispatch.OpcodeOnlyIsExact | tools/gen_dispatch64.py:45-55 | on conditions of the opcode alone the guess is right both ways |
| Dispatch.GuessIsExact | tools/gen_dispatch64.py:45-55 | on a machine that passes the tests of a condition the guess is right both ways, whatever the condition |
| Dispatch.BuildTargets | tools/gen_dispatch64.py:106-113 | the table holds, for each of 256 values, the first block that could match or none |
| Dispatch.IdleBlocksDoNothing | tools/gen_dispatch64.py:9-13 | what falls out of a block goes on with the next: a block that does nothing makes no difference to the cascade, wherever it stands |
| Dispatch.GivingUpGoesToTheTail | tools/gen_dispatch64.py:9-13 | a block that gives up leaves the machine it made to the unhandled tail |
| Dispatch.DispatchPreserves | tools/gen_dispatch64.py:9-13 | jumping gives what running the whole cascade gives, for every opcode, machine and block bodies |
| Dispatch.DispatchPreservesIff | tools/gen_dispatch64.py:9-13 | whatever the conditions, the jump is right for all blocks that have them, all opcodes and all machines, if and only if no skipped condition can hold |
| Dispatch.NegatedPrefixIsLost | tools/gen_dispatch64.py:51-53 | a negated prefix test makes the jump skip a block that holds |
| DispatchGenerator.StripGenerated | tools/gen_dispatch64.py:28-42 | removes table and labels, and fails when the end mark is missing |
| DispatchGenerator.StripDropsTable | tools/gen_dispatch64.py:33-36 | every line between the opening line and the end mark goes, generated or not |
| DispatchGenerator.CollectBlocks | tools/gen_dispatch64.py:68-104 | finds the blocks by counting braces, or names the line that does not belong |
| DispatchGenerator.ScanFindsHeads | tools/gen_dispatch64.py:68-104 | the blocks found are heads of the cascade in order |
| DispatchGenerator.ScanIff | tools/gen_dispatch64.py:68-104 | lines up to the tail are accepted if and only if they are blank lines and blocks in any order, a block being a head and lines of positive running depth up to the one that closes it, and then exactly these blocks are found, each with its line |
| DispatchGenerator.ScanError | tools/gen_dispatch64.py:98-103 | an error names the first line that does not belong: only blank lines and blocks in front of it, and there neither, or a head whose block never ends |
| DispatchGenerator.CascadeGenerates | tools/gen_dispatch64.py:58-104 | a file with step(), the mark, the tail and such a cascade generates, with the table for exactly its blocks |
| DispatchGenerator.GeneratedHasCascade | tools/gen_dispatch64.py:58-104 | and no other file does |
| DispatchGenerator.WhyNot | tools/gen_dispatch64.py:62-65 | otherwise the error tells which of step(), the next function, the mark and the tail is the first not found |
| DispatchGenerator.WriteTable | tools/gen_dispatch64.py:115-146 | groups the values by target and writes the case lists, eight to a line |
| DispatchGenerator.TableShows | tools/gen_dispatch64.py:133-146 | every opcode has exactly one case, and it jumps to its target |
| DispatchGenerator.LinesAreFull | tools/gen_dispatch64.py:139-146 | every line of a case list but the last is the first to be wider than allowed, and only the last has the jump |
| DispatchGenerator.NoCaseBeyond | tools/gen_dispatch64.py:116-117 | no other value has a case |
| DispatchGenerator.Regenerate | tools/gen_dispatch64.py:58-154 | the whole transformation, with its failures |
| DispatchGenerator.LabelledHeads | tools/gen_dispatch64.py:149-154 | next behind every label is the head of its own block, and what stands behind the label, labels apart, is the source from that very line on; and only targets have labels |
| DispatchGenerator.ScanFromBlock | tools/gen_dispatch64.py:68-104 | collecting blocks from the line of block t on finds the blocks from t on |
| DispatchGenerator.StripUndoesGenerate | tools/gen_dispatch64.py:28-42 | stripping a generated file gives back the stripped source |
| DispatchGenerator.GenerateIsIdempotent | tools/gen_dispatch64.py:58-154 | regenerating changes nothing |
| DispatchGenerator.GeneratedTableDispatches | tools/gen_dispatch64.py:9-13 | in a generated file the switch sends each opcode to the tail or to a label that is there; what stands behind the label is the source from its block on, whose blocks are those from that one on, and running these equals running the whole cascade |

## Left out

- Packer.Context.FindMinY: sums are unbounded; 32-bit overflow of the waste on huge targets is not modelled.
- Sorting.Sort: a selection sort stands for `qsort`, of which only the ordered permutation is used.
- Packer.Context.FindBestPos: the source's loops are split into helper methods, in the same order.
- UndoEngine.Editor.Insert: the insertion into the text always succeeds; the branch of a failed paste, which lowers undo_point but not undo_char_point, is not part of this model.
- UndoEngine.Editor.Undo: what redoing the mixed-up record does after a forced discard is not part of this model.
- EditHistory.UndoThenRedoIff: for undos that force no discard; where one is forced, the undo leaves no more redo records than there were (`UndoEngine.Editor.Undo`), so redoing cannot lead back.
- UndoEngine.Editor.Redo: where the record lies beyond the text nothing is changed; what memory the source would read and move then is not part of this model. Record fields and points are unbounded; the 16-bit width of the points is not modelled.
- EditHistory.UndoShowsThePast: for runs that force no discard of redo records and redo nothing beyond the text, dropped redo characters included; `EditHistory.RedosStayInsideIff` says when the latter cannot happen.
- EditHistory.RunAgrees: where redo characters were dropped only the undo side is compared (`EditHistory.RunRemembers`).
- DrawLists.DrawList.PrimReserve: vertex buffers and the large-mesh offset are left out; VtxOffset is always 0, and reserved slots hold what the caller writes.
- DrawLists.DrawList.PushClipRect: clip rectangles, textures and callbacks are opaque values; intersecting with the current rectangle is float arithmetic done before.
- DrawLists.Splitter.Merge: two vectors that share storage while a channel is current are modelled as one value that moves.
- Outlines.StrokeSmooth: coordinates and colours are left out, buffers are rows of points, and indices are unbounded, with what 16 bits keep of them stated apart (`Outlines.StrokeSurvivesIff`).
- Decompress.Decompressor.Decompress: the input is memory of any extent; reading past its end is not modelled, and assertions are taken as compiled out.
- GlyphRanges.Builder.AddRanges: a false result stands for a loop that never ends, which is what `GlyphRanges.NeverEndsIff` decides.
- Dispatch.CouldMatch: conditions are syntax trees; the regular expressions and the evaluation of text are left out, among them tests of `p.rex` in other forms than `p.rex` and `(p.rex & mask)`.
- DispatchGenerator.CollectBlocks: a condition on one line; reading it over several lines and splitting it by parentheses is left out.
- DispatchGenerator.Width: every case takes eleven characters, as those of two hexadecimal digits do.
- The choice of text to add to a glyph set by decoding UTF-8.
- Cursor, selection, layout and word movement in the text editor.
- Float geometry, arcs, curves, text rendering and font rasterisation.
- The emulator itself: its decoder, memory, processes and sockets.
