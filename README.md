# AnimatedImageEditor frame-sequence engine, in Dafny

This project models the engine inside `main.py` of AnimatedImageEditor, a small desktop editor
for animated GIF and WebP files. With the widgets taken away, each of the editor's two
`MainDropLabel`s holds one frame sequence:

- a list of frames;
- a parallel list of durations in milliseconds;
- the current frame index;
- a set of selected indices.

Its methods rearrange these lists in place. The `AnimatedImageEditor` window adds three things:

- one shared undo stack and one shared redo stack, capped at 50 snapshots and tagged with the
  sequence they belong to;
- two ways to fold a second sequence into the first: a side-by-side merge driven by a
  two-cursor sweep over the durations, and a concatenation onto a common canvas;
- the export path, which checks the extension and quantizes GIF frames in chunks of 64.

The modules:

- `Frames`: frames as opaque values with a size, the crop clamp and the aspect-ratio width.
- `Lists`: the position-based list edits that both lists go through.
- `Timeline`: one sequence as a value (`View`), with every edit as a function of it and lemmas
  about what the edits promise.
- `History`: snapshots and the two stacks as values, with save, undo and redo as functions.
- `Composition`: `custom_round`, the duration rescaling, the size metrics, the merge sweep and
  the concatenation.
- `Export`: the chunked palettes and the outcome of an export.
- `Formats`: the load and export extension lists.
- `Lifetime`: image objects and `close()`, for the loops that use each frame and then close it.
- `App`: the two stateful classes. `App.Sequence` is a `MainDropLabel` and `App.Editor` an
  `AnimatedImageEditor`.

Every method of `App` changes its objects in place, as the source does. Each one is proved to
leave exactly the state that the matching function of `Timeline`, `History`, `Composition` or
`Export` gives. The lemmas next to those functions state the properties.

Two float computations become integer ones:

- `int(new_h / (h / w))` becomes the exact floor of `new_h * w / h`.
- `custom_round`'s `modf` with a `1e-4` tolerance becomes exact round-half-up of a quotient.

The program installs no `sys.excepthook`, and under PyQt6 an exception that escapes a slot or
an event handler ends the whole program. Only the file load (main.py:111-129, 136-183) and the
export (main.py:775-809) catch exceptions. The model follows each raising path up to the
raise and states the state there; a method stops at that point, and where a caller needs to
know, it returns `false` and the caller stops too:

- A new `MainDropLabel` has no `durations` attribute until its first `reset`
  (`App.Sequence.hasDurations`). Until then `save_state`, `get_current_state` and
  `overwrite_state` raise `AttributeError`, and every edit that saves first ends at the save.
- `resize_frames` on an empty sequence and `play_next_frame` on an emptied one raise before
  changing anything. These methods return `false` on those paths.
- `reorder_frames` with a moving index past the end of a list raises after the save and the new
  selection, before either list changes.
- `undo` and `redo` always pop the top snapshot. When the sequence it names cannot be resolved,
  the call raises right after the pop: the snapshot is gone and nothing else has changed. That
  is the second sequence after a return to single mode, or a sequence without durations.
- `update_frame_durations` follows Python's indexing, where a selected index i in [-n, 0) stands
  for position i + n. `reverse_frames` produces such indices from a selection that `reorder_frames`
  left past the end of the list.

## Model

| member | source | states |
|---|---|---|
| App.SavedEdit | main.py:599-604 | after `save_state(i)` and an edit of sequence i: the undo stack is the saved one, redo is empty, sequence i is the edited value and the other sequence is unchanged |
| App.Shown | main.py:339-342 | the shown sequence is settled (without frames it is the reset state) and keeps its frames, and a sequence that was settled already is left exactly as it was |
| App.Sequence.constructor | main.py:69-83 | a new sequence has no frames, current index 0, no selection and no durations attribute yet (`hasDurations` is false), and carries its given `MDL_index` |
| App.Sequence.Reset | main.py:85-97 | both lists and the selection are empty, the current index is 0, and the durations attribute exists from now on |
| App.Sequence.Renew | main.py:821 | the new second label of `enable_dual_mode` starts as a constructed one: empty and without a durations attribute |
| App.Sequence.DisplayFrame | main.py:339-342 | the state afterwards is `Shown` of the state before: an empty sequence is reset (which creates its durations attribute), any other is untouched |
| App.Sequence.GetCurrentState | main.py:462-463 | with a durations attribute, the snapshot holds this sequence's tag, both lists and the current index, and nothing else; without one the call fails (`None`) |
| App.Sequence.OverwriteState | main.py:465-470 | lists and current index are replaced by the given ones and the selection is kept; without a durations attribute the frame list is cleared and the call fails |
| App.Sequence.LoadAnimation | main.py:131-144 | the state afterwards is `Load` of the state before: an unsupported extension changes nothing (not even the missing durations attribute), otherwise the decoded frames and their durations (100 ms by default) replace everything |
| App.Sequence.ResizeFrames | main.py:193-202 | without frames (`IndexError`) or with a zero-sized first frame (`ZeroDivisionError`) the call fails and nothing changes; otherwise the state is `Resize` of the state before: every frame resampled to the first frame's aspect-ratio width and the new height |
| App.Sequence.UpdateFrameDurations | main.py:204-216 | with no selection, or when the save fails, the whole workspace is unchanged; otherwise the workspace is the saved one with each duration changed once per selected index that reaches it, negative indices counting from the end (`UpdateDurations`) |
| App.Sequence.BumpSelected | main.py:211-215 | taking the selected indices in any order, each duration ends changed once per selected index that reaches it under Python's indexing (`BumpedTimes` of its hit count) |
| App.Sequence.ReverseFrames | main.py:247-258 | with no frames or a failed save nothing changes, not even the history; otherwise the saved workspace holds the `Reverse` of the sequence |
| App.Sequence.PendulumFrames | main.py:260-270 | with no frames or a failed save nothing changes; otherwise the saved workspace holds the `Pendulum` of the sequence |
| App.Sequence.FrameClicked | main.py:273-291 | the selection and current index afterwards are those of `Click`; a Control or plain click also shows the frame, which on an empty sequence resets it and so creates its durations attribute; a Shift click never does |
| App.Sequence.ReorderFrames | main.py:312-333 | a failed save changes nothing; otherwise the state is saved even when the move changes nothing. It succeeds exactly when every moving index lies inside both lists (`ReorderInRange`), and the sequence becomes `Reorder` of the old one. With an index past the end the call fails after the save, and the sequence keeps its lists with the selection made {source} when it was empty |
| App.Sequence.ApplyReorder | main.py:315-333 | once every moving index lies inside both lists, the in-place list work leaves exactly `Reorder` of the old state |
| App.Sequence.MoveBlock | main.py:318-329 | collecting the selected positions, deleting them from the top down and inserting them from `target` on gives `Moved` of both lists |
| App.Sequence.CollectMoving | main.py:318-320 | the collected frames and durations are the entries at the selected positions, in ascending order |
| App.Sequence.DeleteDescending | main.py:322-324 | deleting the selected positions from the highest down leaves both lists filtered to the unselected positions, in order |
| App.Sequence.InsertBlock | main.py:326-329 | inserting the block one entry at a time at target + i places it whole at min(target, length), and Python's insert appends past the end |
| App.Sequence.PlayNextFrame | main.py:335-337 | on an emptied sequence the tick fails (`ZeroDivisionError`) and nothing changes; otherwise the current index advances cyclically (`PlayNext`) and frames, durations and selection are untouched |
| App.Sequence.CropFrames | main.py:379-421 | without frames, with a declined preview or with a failed save nothing changes; an accepted one saves the state and cuts every frame by the box clamped to the current frame (`Crop`) |
| App.Sequence.DuplicateFrame | main.py:425-433 | a failed save changes nothing; otherwise the state is saved even for an index outside the list, and the sequence becomes `Duplicate` of the old one |
| App.Sequence.DeleteFrame | main.py:435-445 | a failed save changes nothing; otherwise the state is saved first, and the sequence becomes the as-written `Timeline.DeleteFrame` of the old one |
| App.Sequence.DeleteSelectedFrames | main.py:447-459 | the call fails, changing nothing, exactly when the sequence has no durations attribute; otherwise the state is saved even with an empty selection, and the sequence becomes `DeleteSelected` of the old one |
| App.Sequence.ApplyDeleteSelected | main.py:449-459 | the in-place deletion after the save leaves exactly `DeleteSelected` of the old state |
| App.Sequence.DeleteInRange | main.py:450-455 | walking the indices from the highest down and skipping those outside the frame list deletes exactly the in-range positions from both lists |
| App.Editor.constructor | main.py:652-661 | both stacks are empty, single mode is on, and the two sequences are new, distinct, empty, tagged 0 and 1, and without durations attributes |
| App.Editor.SaveState | main.py:599-604 | when the tagged sequence has a durations attribute the workspace afterwards is `SaveStep` of the one before (a tagged snapshot is pushed, the oldest is dropped past 50, and redo is emptied); otherwise the call fails and nothing changes |
| App.Editor.Undo | main.py:606-617 | the workspace afterwards is `UndoIn` of the one before and the sequences that can be resolved: the plain `UndoStep` when the top snapshot's sequence can be resolved, otherwise only the pop |
| App.Editor.Redo | main.py:619-627 | the workspace afterwards is `RedoIn` of the one before, in the same sense |
| App.Editor.DeletePressed | main.py:646-650 | when the first sequence has a durations attribute it loses its selected frames after a save, and in dual mode the second does too when it has one; when the first has none, its failed save ends the key handler and nothing changes. Neither sequence gains or loses its durations attribute |
| App.Editor.EnableDualMode | main.py:812-855 | dual mode is on and the second sequence is new; with a loadable extension it holds the loaded file and its state is saved, otherwise it stays empty without durations and the history is untouched |
| App.Editor.AdjustFrameDurations | main.py:950-979 | the two duration lists become `Adjusted` of the old ones, and nothing else of either sequence changes |
| App.Editor.RescaleOne | main.py:959-963 | the rewriting loop leaves each entry replaced by its rounded share of the other total (`Rescaled`) |
| App.Editor.ResizeShorter | main.py:1002-1012 | the side `calc_resizing_metrics` names is resampled to the common height and width, the other side and both duration lists are untouched |
| App.Editor.MergeImages | main.py:998-1047 | the first sequence holds the swept frames and durations of `SweepMerged` (current index 0) and the second is reset; both have durations attributes afterwards |
| App.Editor.HandleMerge | main.py:928-948 | the first sequence holds `Merged` of both, the second is reset, single mode is back, and the history is untouched; both sequences have durations attributes afterwards |
| App.Editor.HandleConcat | main.py:867-925 | the first sequence holds `Concatenated` of both (current index 0), the second is reset, single mode is back, and the history is untouched; both sequences have durations attributes afterwards |
| App.Editor.ExportAnimation | main.py:752-807 | the outcome is `Exported` of the mode, the first sequence and the chosen extension |
| Timeline.WellFormedSettled | main.py:339-342 | a well-formed sequence without frames is the reset state |
| Timeline.LoadEffect | main.py:131-144 | an unsupported extension leaves the sequence as it was; a supported one gives a well-formed sequence of exactly the decoded frames, with 100 ms where no duration was given |
| Timeline.LoadRejectsBitmap | main.py:132-134 | a `.bmp` file is refused and changes nothing |
| Timeline.ReverseMapsPositions | main.py:252-256 | position i moves to n-1-i in both lists, in the selection (both directions) and in the current index |
| Timeline.ReverseTwice | main.py:247-258 | reversing twice restores the whole state |
| Timeline.ReverseWellFormed | main.py:247-258 | reversing keeps a sequence well formed |
| Timeline.PendulumShape | main.py:266-268 | the pendulum doubles both lists, keeps the original as the first half, reads the same backwards, and keeps selection and current index |
| Timeline.PendulumWellFormed | main.py:260-270 | the pendulum keeps a sequence well formed |
| Timeline.ClickPlain | main.py:287-290 | a plain click, an unusual modifier, or Shift with nothing selected selects only the clicked index and makes it current |
| Timeline.ClickControlToggles | main.py:280-286 | a Control click flips membership of the clicked index only, so two of them restore the selection |
| Timeline.ClickShiftRange | main.py:275-279 | a Shift click selects exactly the indices between the largest selected one and the clicked one, in either order, and keeps the current index |
| Timeline.ClickWellFormed | main.py:273-291 | a click on a frame keeps the sequence well formed |
| Timeline.ReorderPermutes | main.py:312-331 | reordering keeps both lists' lengths and multisets, moves frame and duration pairs together, keeps the current index, and selects `range(target, target + k)` |
| Timeline.ReorderLandsBlock | main.py:318-329 | the moved block, in ascending source order, lands at min(target, n - k) in both lists, with the other entries around it in their original order |
| Timeline.ReorderExample | main.py:312-331 | [f0, f1, f2, f3] with {0, 2} selected, dropped on 3, gives [f1, f3, f0, f2] with selection {3, 4} |
| Timeline.ReorderSelectionEscapes | main.py:331 | as written, the new selection of that example holds index 4 of a four-frame list and misses index 2, where a moved frame is |
| Timeline.ReorderClampedWellFormed | main.py:331 | with the selection starting at min(target, n - k), it is exactly the moved frames' positions and the sequence stays well formed |
| Timeline.MovedFloor | main.py:322-329 | moving entries around keeps the 1 ms floor of every duration |
| Timeline.DuplicateShape | main.py:428-432 | the copy of the frame and its duration sits right after the original; the lists stay paired, one longer |
| Timeline.DuplicateWellFormed | main.py:425-433 | duplicating keeps a sequence well formed |
| Timeline.DeleteFrameKeepsLast | main.py:440 | the last remaining frame is never deleted |
| Timeline.DeleteFrameUnpairs | main.py:441 | as written, deleting frame 0 of three leaves three durations for two frames and a selected index past the end |
| Timeline.DeleteFramePairedWellFormed | main.py:438-445 | deleting the duration too and shifting the selection keeps the sequence well formed; the frames are those of the as-written delete, and the last frame still stays |
| Timeline.DeleteSelectedShape | main.py:447-459 | both lists are filtered to the unselected positions, in order and in lock-step; the selection is cleared; the current index is clamped, or the sequence reset when no frame is left |
| Timeline.DeleteSelectedWellFormed | main.py:447-459 | deleting the selection keeps a sequence well formed |
| Timeline.KeptPositive | main.py:450-455 | filtering a duration list keeps its 1 ms floor |
| Timeline.UpdateDurationsEffect | main.py:204-216 | only durations that a selected index reaches change: a positive change is added once per reaching index, any other lands on max(1, d + hits · delta), and a touched non-negative duration ends at 1 ms or more; frames, index and selection stay |
| Timeline.BumpedTimes | main.py:212-215 | a duration reached k times changes by k · delta when delta is positive, and otherwise lands on max(1, d + k · delta) |
| Timeline.UpdateDurationsFloor | main.py:215 | a 50 ms frame lowered by 10000 ms is held at 1 ms |
| Timeline.UpdateDurationsNegative | main.py:211-215 | {0, -1} in a four-frame list changes the first and the last duration; {3, -1} changes the last one twice |
| Timeline.UpdateDurationsWellFormed | main.py:204-216 | changing durations keeps a sequence well formed, and there each selected duration changes exactly once |
| Timeline.PlayNext | main.py:335-337 | the next current index is inside the list, wraps from the last frame to 0, and nothing else changes |
| Timeline.TicksAdvance | main.py:335-337 | up to n ticks move the current index that many places forward, wrapping once past the end |
| Timeline.TicksCycle | main.py:335-337 | after n ticks the current frame is the starting one again |
| Timeline.PlayNextWellFormed | main.py:335-337 | a tick keeps a sequence well formed |
| Timeline.CropEffect | main.py:402-421 | every frame is cut by one common non-empty box; durations, index and selection stay and the sequence stays well formed |
| Timeline.ResizeEffect | main.py:193-202 | after a resize all frames share one size, the width is the first frame's aspect ratio rounded down, and durations are untouched |
| History.Put | main.py:612-615 | replacing one sequence's value leaves the other sequence and both stacks alone |
| History.Pushed | main.py:601-603 | the snapshot goes on top; below 50 entries nothing is dropped, and at 50 the oldest is dropped so the length stays |
| History.SaveStepBounded | main.py:599-604 | after a save the undo stack holds at most 50 snapshots and redo is empty |
| History.SaveStepDropsOldest | main.py:602-603 | a save on a full history forgets exactly the oldest snapshot |
| History.StepsKeepBounded | main.py:606-627 | undo and redo move one snapshot between the stacks, so their combined size stays at most 50, although redo pushes without the cap |
| History.CaptureCoherent | main.py:462-463 | a snapshot of a settled sequence is coherent |
| History.CaptureRestore | main.py:615-617 | restoring a coherent snapshot and capturing the result gives the snapshot back |
| History.RestoreCapture | main.py:615-617 | restoring a captured settled sequence gives it back, as long as its selection survived |
| History.RedoAfterUndo | main.py:606-627 | redo after undo restores both stacks, the other sequence, and the tagged sequence's frames, durations and current index |
| History.UndoAfterRedo | main.py:606-627 | undo after redo restores the same things |
| History.StepsKeepCoherent | main.py:599-627 | save, undo and redo keep the workspace coherent |
| History.StepsInDropUnreachable | main.py:606-627 | with both sequences resolvable the editor's steps are the plain ones; an unresolvable top snapshot is lost from both stacks and neither sequence changes |
| History.StepsInKeepInvariants | main.py:606-627 | the editor's undo and redo keep the 50-snapshot bound and the coherence of the workspace |
| History.UndoRevertsEdit | main.py:599-617 | save, edit, then undo: the edited sequence gets back its saved frames, durations and index, the edit is what redo offers, and the undo stack is as before the save |
| Composition.CustomRound | main.py:22-31 | the result r is the round-half-up of num/den: (2r - 1)·den <= 2·num < (2r + 1)·den |
| Composition.CustomRoundUnique | main.py:22-31 | any r inside that bracket is the result, so the bracket defines the rounding |
| Composition.CustomRoundExact | main.py:22-31 | exact quotients are kept |
| Composition.CustomRoundExamples | main.py:27-28 | 2.5 rounds to 3; 7/3 rounds down to 2 and 8/3 up to 3 |
| Composition.CustomRoundMonotone | main.py:22-31 | a larger numerator never rounds lower |
| Composition.Share | main.py:960-963 | one rescaled entry is the round-half-up of other·x/own |
| Composition.ShareOfEqual | main.py:960-963 | a share of an equal total is the entry itself |
| Composition.ShareMonotone | main.py:960-963 | a larger entry never gets a smaller share |
| Composition.SumNonNegative | main.py:954-955 | non-negative durations have a non-negative total |
| Composition.AdjustedEffect | main.py:950-979 | only one list is rewritten: list 2 when sum1 > sum2, list 1 otherwise. It keeps its length, each entry becomes its share of the other total, the other list stays, and equal totals change nothing |
| Composition.RescaledIdentity | main.py:950-979 | rescaling a list to its own total changes nothing |
| Composition.AdjustedExample | main.py:950-979 | against a 200 ms sequence, [30, 70] becomes [60, 140] |
| Composition.ShareError | main.py:961-963 | one share is off by at most half a millisecond |
| Composition.RescaledDrift | main.py:959-967 | the rescaled total lies within half a millisecond per entry of the target |
| Composition.DriftScaled | main.py:959-963 | the same bound before dividing by the list's own total |
| Composition.RescaledDriftExample | main.py:965 | as written, three 1 ms frames rescaled to 10 ms become 3 ms each, 9 ms in all |
| Composition.RescaledCumulative | main.py:959-967 | the corrected rescaling keeps the list's length |
| Composition.CumulativeTelescopes | main.py:959-967 | rounding running totals telescopes to the rounded share of the whole, with no negative entry |
| Composition.CumulativeExact | main.py:959-967 | the corrected rescaling hits the target total exactly, has no negative entry, and is the identity on an equal total |
| Composition.CumulativeIdentity | main.py:959-967 | the corrected rescaling to the list's own total changes nothing |
| Composition.CumulativeExample | main.py:965 | the 9 ms example above comes out as [3, 4, 3], exactly 10 ms |
| Composition.ResizingMetrics | main.py:981-996 | both heights become max(h1, h2); the taller side (the first on a tie) keeps its size; the other keeps its aspect ratio with the width rounded down |
| Composition.ResizingMetricsEqualHeights | main.py:981-996 | equal heights change nothing |
| Composition.Broadcast | main.py:935-945 | the broadcast keeps the first frame of each side and keeps every side paired with its durations |
| Composition.BroadcastEffect | main.py:935-942 | a single-frame side is repeated to the other side's length and takes the other side's very durations |
| Composition.Sweep | main.py:1021-1039 | every step reads positions inside both remaining lists |
| Composition.StepSums | main.py:1030-1039 | the remainder ahead of a cursor loses exactly what the step consumed |
| Composition.SweepTotal | main.py:1021-1042 | for non-negative durations the sweep lasts exactly min(sum1, sum2) |
| Composition.SweepCount | main.py:1021-1042 | every step advances a cursor, so the sweep emits at most len1 + len2 - 1 frames |
| Composition.SweepCoversBoth | main.py:1021-1042 | with equal totals and no zero duration, the sweep runs both sides to the end |
| Composition.SweepTruncates | main.py:1021-1042 | one 10 ms frame against three 5 ms frames gives two merged frames; the third frame is never shown |
| Composition.SweepBroadcast | main.py:1021-1042 | sweeping a duration list against itself pairs frame k with frame k and keeps each duration, zero-length frames included |
| Composition.BroadcastMergeDurations | main.py:935-942 | after a broadcast the merged durations are exactly the other side's list |
| Composition.MergeSweep | main.py:1017-1042 | the in-place two-cursor loop emits exactly the frames and durations of `Sweep` |
| Composition.MergedBroadcast | main.py:935-947 | merging with a single-frame side yields exactly the other side's durations, one merged frame per frame of that side |
| Composition.MergedTotal | main.py:944-1042 | the merged total is the smaller of the two adjusted totals, with at most n1 + n2 - 1 frames and one duration each |
| Composition.MergedGeometry | main.py:1004-1027 | every merged frame is a canvas width1 + width2 wide at the common height, with the second frame pasted at x = width1 |
| Composition.PadFrames | main.py:884-888 | the padding loop gives `Padded` |
| Composition.ConcatenatedShape | main.py:867-925 | durations are d1 + d2 and there are len1 + len2 frames; both heights become max(h1, h2), and uniform inputs give frames of one container size |
| Composition.ConcatenatedOffsets | main.py:881-916 | every centring offset keeps the pasted frame inside the container |
| Export.ChunksFlatten | main.py:787-791 | chunking loses and reorders nothing |
| Export.ChunksAt | main.py:787-791 | there are ceil(n / 64) chunks, and chunk c is the slice from 64·c, 64 long or running to the end |
| Export.ChunksCount | main.py:787-791 | there are ceil(n / 64) chunks |
| Export.ChunkAt | main.py:787-791 | chunk c is the slice from 64·c, 64 long or running to the end |
| Export.QuantizedAll | main.py:793-797 | one quantized image per frame |
| Export.QuantizedPalettes | main.py:793-797 | frame k is quantized against frame 64·(k / 64), the first of its chunk, and frames of one chunk share a palette |
| Export.QuantizedExample | main.py:793-797 | frame 63 uses frame 0's palette and frame 64 starts a new one |
| Export.QuantizeChunks | main.py:791-797 | the nested chunk loops give exactly `QuantizedAll` |
| Export.ExportedOutcome | main.py:752-807 | an export succeeds exactly for a non-empty single sequence and a `.gif` or `.webp` extension. It then writes one image per frame, in order, with the sequence's durations. Dual mode or no frames is refused as "no frames" |
| Export.ExportRefusesPng | main.py:770-773 | a `.png` path is refused even though `.png` files load |
| Lifetime.ReachedStops | main.py:199-202 | the use-then-close loop gets through exactly the fresh prefix: it reaches the end if and only if no object is closed beforehand or repeated, and otherwise stops at an object closed before the call or met earlier in the loop |
| Lifetime.ReachedAtLeast | main.py:199-202 | the loop gets at least through a prefix of live objects that does not repeat one |
| Lifetime.ReachedAtMost | main.py:199-202 | the loop stops at the latest at a position whose object is closed or met before |
| Lifetime.UseAndClose | main.py:199-202 | the as-written loop of `resize_frames`, and of the padding loops at main.py:884-888, 894-898, 902-906 and 912-916: it replaces the positions `Reached` counts, closing their objects, and fails exactly when it stops short |
| Lifetime.UseAllThenClose | main.py:199-202 | with every object used before any is closed, the loop fails exactly when an object was closed before the call, so repeated objects go through and all of them end closed |
| Lifetime.PendulumResizeRaises | main.py:266 | as written, resizing the pendulum of distinct live objects replaces the original half and raises at the first position of the mirrored half |
| Lifetime.BroadcastResizeRaises | main.py:937 | as written, resizing one object broadcast over two or more positions replaces position 0 and raises at position 1 |
| Formats.ExportableIsLoadable | main.py:771 | every extension that exports is one that loads |
| Formats.StillImagesDoNotExport | main.py:132 | `.png`, `.jpg` and `.jpeg` load but do not export |
| Frames.ScaledWidth | main.py:194-197 | the new width r is floor(target·w / h): r·h <= target·w < (r + 1)·h, non-negative, and w itself at the same height |
| Frames.ClampBox | main.py:402-405 | left and top are clamped into the image. Right and bottom lie at least one pixel past them, inside the image unless that pixel forces them out. A box already inside the image is kept |
| Frames.ClampBoxIdempotent | main.py:402-405 | clamping a clamped box changes nothing |
| Frames.ClampBoxCanLeaveImage | main.py:402-405 | a box right of the image becomes a one-pixel column just outside it |
| Frames.CenterOffset | main.py:886 | the offset keeps an image of width w inside the canvas and centres it to within one pixel |
| Lists.Range | main.py:279 | exactly the integers in [lo, hi) |
| Lists.SetMax | main.py:276 | the largest element of a non-empty selection |
| Lists.Ascending | main.py:318 | the selection's elements in strictly increasing order, each once |
| Lists.ReversedTwice | main.py:252-254 | reversing a list twice gives it back |
| Lists.MovedPermutes | main.py:318-329 | moving a block keeps length and multiset |
| Lists.MovedBlock | main.py:318-329 | the moved block lands at min(target, n - k), with the other elements around it in order |
| Lists.MovedLockStep | main.py:318-329 | moving pairs is moving both lists: frames and durations stay in lock-step |
| Lists.KeptPickedPartition | main.py:450-455 | kept and deleted entries together are the original list, as a multiset |
| Lists.RemovedKept | main.py:450-455 | deleting below every position already deleted removes exactly that position's element |

## Left out

- Widget code is not modelled. It is display-only and does not touch the modelled state:
  - layouts, parent-chain navigation and thumbnails;
  - `populate_frame_area` and `highlight_selected_frames`;
  - the insertion line and drag scrolling;
  - message boxes and the resize dialog.
- `enable_single_mode` is modelled as single mode being switched back on. Its one effect on the model's state is that the second sequence can no longer be resolved by undo and redo (`App.Editor.Live`). The layout teardown itself is left out.
- `enable_dual_mode` creating a new `MainDropLabel` is modelled by renewing the editor's one second `App.Sequence` object in place (`App.Sequence.Renew`). Nothing else holds the old label, so no aliasing is lost.
- `load_animation`'s replace/merge/concatenate question is left out, and only the replace path is modelled. The merge and concatenate choices lead to `enable_dual_mode`, which is modelled on its own.
- `toggle_play_pause` and the `QTimer` that drives playback are event-loop scheduling and are left out; the tick itself is `App.Sequence.PlayNextFrame`. `handle_merge` stopping playback is left out for the same reason.
- Pillow pixel work is recorded symbolically on opaque frames:
  - decoding is a parameter of the load, a list of frames with optional durations;
  - resampling, cropping, pasting, `convert` and `quantize` appear as constructors of `Frame`;
  - encoding and writing the file are left out.
  - A decoder exception (the `except` branch of `load_animation`) is not modelled.
- `thumbnail((1920, 1920))` on merged frames is left out. `Composition.MergedGeometry` states the canvas size before that shrink.
- The crop has two parts left out: the float mapping from screen to image coordinates, and the 20×20 on-screen minimum. `App.Sequence.CropFrames` takes the four integer edges the mapping produced, plus the user's answer to the preview.
- `os.path.splitext` is left out. Load and export take the lower-cased extension already extracted; a cancelled save dialog is `None`.
- Frames.ScaledWidth: the float expression `int(new_h / (h / w))` is modelled as the exact floor of `new_h * w / h`. The two can differ in the last unit when the float quotient rounds across an integer.
- Composition.CustomRound: `modf` with its `1e-4` tolerance around one half is modelled as exact round-half-up of a rational. Fractions within `1e-4` below one half, which the source rounds up, round down here.
- Composition.Share: computes `other * d / own` exactly rather than `other * (d / own)` in floats.
- App.Sequence.ReorderFrames: `target` is a natural number. Python's `insert` with a negative position, which counts from the end, is not modelled.
- App.Sequence.ReorderFrames: every moving index must be at least 0; one past the end of either list is modelled as the failure it is. The source also takes negative ones, which `reverse_frames` makes from an escaped selection: {3, 4} in a four-frame list becomes {0, -1}. For a negative i the source collects and deletes the frame at i + n. When both i and i + n are selected, that frame is collected twice, and the second deletion removes a different frame. These moves are not modelled.
- App.Sequence.UpdateFrameDurations, App.Sequence.DuplicateFrame and App.Sequence.DeleteSelectedFrames: these require the durations to reach every index the source reads. `UpdateFrameDurations` takes indices in [-n, n), as Python's indexing does. Beyond that the source raises `IndexError` halfway through an edit, and that partial edit is not modelled.
- Termination is not modelled. An exception that escapes an event handler ends the program under PyQt6; where a method returns `false`, the state it promises is the state at the raise, after which nothing else runs.
- App.Editor.Undo: snapshots copy the lists, not the images. `resize_frames`, `reset` and `handle_concat` `close()` images that older snapshots may still hold, and none of them saves first. An undo after them therefore restores closed images. Frames here are immutable values, so this sharing is not modelled in `App`; `Lifetime` takes the objects closed beforehand as a parameter, and its loops fail on them.
- App.Editor.MergeImages, App.Editor.HandleMerge and App.Editor.HandleConcat require the following, without which the source raises. The list is not all the source needs: the repeated image objects below make it raise too.
  - a durations attribute on the first sequence, which any sequence with frames has;
  - both sequences non-empty;
  - first frames of positive size;
  - for the duration adjustment, non-negative durations and a non-zero total to divide by.
- App.Sequence.ResizeFrames: frames are values, so the model cannot see two positions holding one image object. The source closes each object after resampling it (main.py:201), so a list that holds one object twice raises `ValueError` at the second occurrence, with the positions before it resampled. `pendulum_frames` (main.py:266) and the merge broadcast (main.py:937, 941) make such lists. The model resamples every position, as the corrected loop `Lifetime.UseAllThenClose` does; the as-written loop is `Lifetime.UseAndClose` (see Findings).
- App.Editor.ResizeShorter and App.Editor.MergeImages: the resize of the shorter side fails in the source the same way when that side holds an object twice. After a broadcast that is the single-frame side whenever it is the one resized: the first side when it is the shorter, the second when it is not taller. A single 2×1 first frame merged with three 2×2 frames raises at the second copy. The model merges as if the resize went through.
- App.Editor.HandleMerge: follows `ResizeShorter`; the broadcast case above is modelled as merging successfully.
- App.Editor.HandleConcat: the padding loops (main.py:884-888, 902-906) close each frame after pasting it, so a side that holds an object twice raises `ValueError` at the second paste, as does the resize of such a side. The model pads every position.
- App.Sequence.ResizeFrames requires a height of at least 0; the resize dialog only offers 1 to 4000. It also requires a first frame of non-negative size, as every Pillow image has.
- App.Sequence.CropFrames requires, when there are frames, a current index inside the list, at a frame of non-negative size. The source keeps the current index inside a non-empty list.
- App.Editor.ExportAnimation models `export_animation` up to the encoder call. The suggested file name and the dialog's format filter are left out. The `.webp` branch hands the frames over unchanged.
- Only the as-written `delete_frame` is modelled in `App`. The corrected `Timeline.DeleteFramePaired` and `Timeline.ReorderClamped` are stated and proved at the value level only.

## Findings

| source | as written | input that shows it | evidently intended | confidence | as-written member | corrected member |
|---|---|---|---|---|---|---|
| main.py:441 | `delete_frame` deletes the frame but not its duration, and does not shift selected indices above it | frames [a, b, c], durations [10, 20, 30], selection {2}, delete index 0: frames [b, c], still three durations, and index 2 selected in a two-frame list | delete the duration too and shift higher selected indices down by one | high, not executed | Timeline.DeleteFrameUnpairs | Timeline.DeleteFramePairedWellFormed |
| main.py:331 | the new selection is `range(target, target + k)`, although the block lands at min(target, n - k) when `target` is past the shortened list | [f0, f1, f2, f3], selection {0, 2}, target 3: frames [f1, f3, f0, f2], selection {3, 4} | the selection {2, 3}, where the moved frames are | high, not executed | Timeline.ReorderSelectionEscapes | Timeline.ReorderClampedWellFormed |
| main.py:201 | `resize_frames` closes each image right after resampling it, but `pendulum_frames` (main.py:266) and the merge broadcast (main.py:937, 941) put one image object at several positions, so the resize meets a closed image | load a one-frame file [a], pendulum it to [a, a], resize to height 4: position 0 is resampled and `a` closed, position 1 raises `ValueError`. Also a single 2×1 first frame merged with three 2×2 frames | resample every position, closing the old objects only afterwards | high, not executed | Lifetime.PendulumResizeRaises | Lifetime.UseAllThenClose |
| main.py:965 | `leftover` is rounded and then discarded, so the rescaled durations miss the target total by up to half a millisecond per frame | durations [1, 1, 1] rescaled to a 10 ms total: [3, 3, 3], 9 ms | the rescaled total equals the other side's total | medium, not executed | Composition.RescaledDriftExample | Composition.CumulativeExact |
