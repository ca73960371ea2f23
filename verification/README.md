# Friendly Ground Truth: patch editing and undo, in Dafny

This project models the core of Friendly Ground Truth, an annotation tool
for marking the foreground of grey-scale images, and proves properties of
that model. The tool works like this:

- It pads an image so each side divides by `n` and cuts it into an `n x n`
  row-major grid of patches.
- The user edits one patch's boolean mask at a time with a set of tools:
  - a threshold slider;
  - add and remove brushes;
  - add and remove flood fills;
  - "no root", which clears the patch and moves on;
  - previous/next navigation;
  - undo and redo.
- An undo manager keeps two capped stacks of patch snapshots. It merges
  repeated "adjust" entries, and each patch keeps its own undo history when
  the user navigates away.

Everything in the model is functional, as follows.

- patches, masks (sets of cells), tools, undo managers and the controller
  are immutable datatypes;
- every tool action and controller callback is a pure transition function;
- the three pieces of pixel mathematics are parameters: the Otsu threshold,
  disk rasterisation and flood fill (module `PixelMath`).

The project also models the string builder of the icon-embedding script.

Files and modules:

- `common.dfy` (`Common`): option and result types, grid cells, substring
  search.
- `pixel_math.dfy` (`PixelMath`): the uninterpreted image kernels.
- `undo_manager.dfy` (`UndoManagement`): the undo manager.
- `patch.dfy` (`PatchModel`): a patch and its mask operations.
- `image.dfy` (`ImageModel`): padding, tiling, coordinate lookup and mask
  assembly.
- `tools.dfy` (`Tools`): the ten tools.
- `controller.dfy` (`Control`): tool activation, events, undo/redo
  callbacks and navigation.
- `controller_invariant.dfy` (`ControlInvariant`): the reachable-state
  invariant and its preservation.
- `geometry.dfy` (`Geometry`): patch-to-image positions, the neighbour
  window, mask file names.
- `embed_icon.dfy` (`IconEmbedding`): the bytes-literal writer.

## Model

| member | source | states |
|---|---|---|
| UndoManagement.Empty | friendly_ground_truth/controller/undo_manager.py:24-27 | a new manager has both stacks empty |
| UndoManagement.PushEvicting | friendly_ground_truth/controller/undo_manager.py:65-68 | the pushed entry is on top; below the cap of 20 it is a plain append, at the cap the oldest (index 0) entry is dropped; the cap is kept |
| UndoManagement.AddToUndoStack | friendly_ground_truth/controller/undo_manager.py:37-68 | when the top tag equals the new tag and contains "adjust" (so also a repeated "threshold_adjust") the undo stack is unchanged; otherwise the (snapshot, tag) pair is pushed with eviction; the redo stack is never touched; the cap is kept |
| UndoManagement.Undo | friendly_ground_truth/controller/undo_manager.py:70-82 | on an empty undo stack nothing is returned and nothing changes; otherwise the top entry is returned, the rest of the undo stack remains, and the redo stack is untouched |
| UndoManagement.AddToRedoStack | friendly_ground_truth/controller/undo_manager.py:84-99 | the pair is pushed on the redo stack with eviction; the undo stack is untouched; the cap is kept |
| UndoManagement.Redo | friendly_ground_truth/controller/undo_manager.py:101-113 | mirror of `Undo` on the redo stack |
| UndoManagement.EmptinessMatchesPop | friendly_ground_truth/controller/undo_manager.py:29-35 | `undo_empty` / `redo_empty` hold exactly when the matching `undo()` / `redo()` hands back nothing, and then the manager is unchanged |
| UndoManagement.ClearUndos | friendly_ground_truth/controller/undo_manager.py:115-128 | both stacks are empty afterwards |
| UndoManagement.ThresholdAdjustIsAdjust | friendly_ground_truth/controller/undo_manager.py:58-63 | "threshold_adjust" contains "adjust", so its dedicated branch agrees with the general adjust branch |
| UndoManagement.OperationsStayBounded | friendly_ground_truth/controller/undo_manager.py:22-99 | every operation keeps both stacks at 20 entries or fewer |
| UndoManagement.PushThenUndo | friendly_ground_truth/controller/undo_manager.py:65-82 | a push that is not merged, made below the cap, is undone by one undo: it returns the pushed pair and restores the manager |
| UndoManagement.PushThenRedo | friendly_ground_truth/controller/undo_manager.py:84-113 | a redo push below the cap is undone by one redo, which returns the pushed pair and restores the manager |
| UndoManagement.NoRepeatedAdjustSuffix | friendly_ground_truth/controller/undo_manager.py:67-68 | dropping the oldest entries keeps the undo stack free of mergeable neighbours |
| UndoManagement.NoRepeatedAdjustPrefix | friendly_ground_truth/controller/undo_manager.py:78 | popping the top keeps the undo stack free of mergeable neighbours |
| UndoManagement.PushEvictingMembers | friendly_ground_truth/controller/undo_manager.py:65-68 | a push leaves only old entries and the pushed one on the stack |
| UndoManagement.StackMembers | friendly_ground_truth/controller/undo_manager.py:37-113 | no operation puts any entry on a stack except the one it pushes |
| UndoManagement.AddKeepsNoRepeatedAdjust | friendly_ground_truth/controller/undo_manager.py:58-78 | pushes and pops never leave two neighbouring undo entries with the same adjust tag |
| Common.NotContainsByMissingChar | friendly_ground_truth/controller/undo_manager.py:61 | a string lacking one of the pattern's characters does not contain the pattern (used to show that click, flood and no-root tags never merge) |
| PatchModel.ThresholdMask | friendly_ground_truth/model/model.py:562-563 | a cell is foreground exactly when it lies in the patch and its pixel exceeds the threshold |
| PatchModel.ApplyThreshold | friendly_ground_truth/model/model.py:541-563 | a threshold outside [0, 1] is a `ValueError`; otherwise only the mask changes, to exactly the cells brighter than the threshold |
| PatchModel.SetThreshold | friendly_ground_truth/model/model.py:444-463 | outside [0, 1] the patch is unchanged; inside, the threshold is stored and the mask is exactly the cells brighter than it; nothing else changes |
| PatchModel.SetThresholdIdempotent | friendly_ground_truth/model/model.py:444-463 | setting the same threshold twice equals setting it once |
| PatchModel.NewPatch | friendly_ground_truth/model/model.py:394-430 | a new patch is well-formed, holds its data and grid index, has a threshold in [0, 1], no flood seeds and no saved history; its mask is empty or the Otsu mask, and an in-range Otsu value becomes the threshold |
| PatchModel.Circle | friendly_ground_truth/model/model.py:780-811 | the clipped disk is exactly the rasterised disk's cells that lie inside the patch |
| PatchModel.AddRegion | friendly_ground_truth/model/model.py:664-686 | every cell of the clipped disk becomes foreground and every other cell keeps its value; nothing but the mask changes |
| PatchModel.RemoveRegion | friendly_ground_truth/model/model.py:688-706 | every cell of the clipped disk becomes background and every other cell keeps its value; nothing but the mask changes |
| PatchModel.BrushKeepsValid | friendly_ground_truth/model/model.py:799-802 | brush edits keep the mask inside the patch |
| PatchModel.AddThenRemoveRegion | friendly_ground_truth/model/model.py:664-706 | removing the disk just added leaves the old mask minus the disk |
| PatchModel.AddRegionIdempotent | friendly_ground_truth/model/model.py:664-686 | painting the same disk twice equals painting it once |
| PatchModel.ClearMask | friendly_ground_truth/model/model.py:603-615 | the threshold becomes 1 and the mask becomes the cells brighter than 1, so it is empty when no pixel exceeds 1 |
| PatchModel.FloodCells | friendly_ground_truth/model/model.py:736 | the flooded cells are the kernel's cells that lie inside the patch |
| PatchModel.FloodAddRegion | friendly_ground_truth/model/model.py:708-743 | the new mask is the saved mask plus the flooded cells; a repeated seed keeps the saved mask, a new seed first saves the current mask; the seed and tolerance are recorded; nothing else changes |
| PatchModel.FloodRemoveRegion | friendly_ground_truth/model/model.py:745-778 | the new mask is the saved mask minus the flooded cells, with the same saving rule and recording |
| PatchModel.FloodKeepsValid | friendly_ground_truth/model/model.py:736-773 | flood edits keep the masks inside the patch |
| PatchModel.FloodAddNotCumulative | friendly_ground_truth/model/model.py:731-738 | two flood-adds at the same seed equal one flood-add at the later tolerance |
| PatchModel.FloodRemoveNotCumulative | friendly_ground_truth/model/model.py:766-773 | two flood-removes at the same seed equal one flood-remove at the later tolerance |
| PatchModel.SharedOldMaskUndoesRemoval | friendly_ground_truth/model/model.py:731-769 | because the saved mask is shared, a flood-remove at a fresh seed followed by a flood-add at the earlier add seed brings back the first add's mask |
| PatchModel.ReclickDiscardsBrushStroke | friendly_ground_truth/model/model.py:731-738 | a brush stroke made after a flood-add is lost when the same seed is flooded again |
| ImageModel.BlockLength | friendly_ground_truth/model/model.py:216-217 | a positive side gives a positive block length |
| ImageModel.PaddedLength | friendly_ground_truth/model/model.py:204-214 | the padded side is a multiple of `n` (block length times `n`), at least the side and less than side plus `n`, and equal to the side when `n` already divides it |
| ImageModel.TruncDiv | friendly_ground_truth/model/model.py:247-248 | `int(a / b)` truncates: floor division for non-negative `a`, rounding toward zero for negative `a` |
| ImageModel.Tile | friendly_ground_truth/model/model.py:211-224 | each block is block-shaped and holds the padded image's pixels at its offset, zeros in the padding |
| ImageModel.CreatePatches | friendly_ground_truth/model/model.py:226-234 | exactly `n*n` patches; list index `idx` holds grid index `(idx / n, idx % n)`, is block-shaped, well-formed and has no history |
| ImageModel.NewImage | friendly_ground_truth/model/model.py:42-66 | for a non-empty image, `num_patches <= 0` is a `ValueError` and only that; otherwise the image is well-formed, row-major, tiled with block-shaped patches without history, and padded as `PaddedLength` says |
| ImageModel.IndexedIsRowMajor | friendly_ground_truth/model/model.py:226-234 | the list built by `_create_patches` holds grid index `(i, j)` at `i*n + j` |
| ImageModel.GetPatchFromCoords | friendly_ground_truth/model/model.py:236-250 | a coordinate of the padded image gives a list index below `n * n` whose quotient and remainder by `n` are the coordinate's tile row and column; because `int` truncates toward zero, a row less than one tile above the image lands in tile row 0 |
| ImageModel.CoordsLocatePatch | friendly_ground_truth/model/model.py:236-250 | for a coordinate inside the padded image, `get_patch_from_coords` names the patch whose grid index is `(row / block_h, col / block_w)` |
| ImageModel.CreateMask | friendly_ground_truth/model/model.py:252-275 | the image mask lies inside the image and holds a placed patch cell exactly when that cell is inside the image |
| ImageModel.PlacedCellLocated | friendly_ground_truth/model/model.py:247-275 | a patch cell placed in the image is located back to the same patch and the same offset |
| ImageModel.CoordIsPlaced | friendly_ground_truth/model/model.py:247-275 | every padded-image coordinate is the placement of its offset cell in the patch `get_patch_from_coords` picks |
| ImageModel.CreateMaskCharacterised | friendly_ground_truth/model/model.py:252-275 | an image pixel is in the assembled mask exactly when its cell is in the mask of the patch `get_patch_from_coords` picks |
| ImageModel.IndexOfGridIndex | friendly_ground_truth/model/model.py:226-250 | a patch's list position is its grid row times `n` plus its grid column |
| Tools.Id | friendly_ground_truth/controller/controller.py:713-779 | tool ids lie in 1..10 |
| Tools.IdsDistinct | friendly_ground_truth/controller/controller.py:713-779 | no two tools share an id, so the id-keyed table holds all ten |
| Tools.Persistent | friendly_ground_truth/controller/tools.py:288-291 | the markup tools (threshold, both brushes, both floods) are exactly the kinds built with `persistant=True`; no-root, previous, next, undo and redo, built with `persistant=False` (tools.py lines 882, 1340, 1407, 1473, 1529), are exactly the rest |
| Tools.NewThresholdTool | friendly_ground_truth/controller/tools.py:286-305 | the threshold tool starts at 0 with increment 0.01, unbound, not new, undos unlocked |
| Tools.BindThreshold | friendly_ground_truth/controller/tools.py:349-358 | binding copies the patch threshold and marks the patch new exactly when nothing was bound or the grid index differs (or it was already new) |
| Tools.SetToolThreshold | friendly_ground_truth/controller/tools.py:311-335 | a value outside [0, 1] changes nothing; otherwise the tool takes it; right after binding the patch is not written; later the patch gets the threshold and mask, and with undos unlocked the written patch is pushed as "threshold_adjust" |
| Tools.AdjustThreshold | friendly_ground_truth/controller/tools.py:435-451 | inverted: a negative direction raises the threshold by the increment, any other lowers it; out-of-range results change nothing |
| Tools.ThresholdUndoReturnsCurrentPatch | friendly_ground_truth/controller/tools.py:321-327 | since the snapshot is taken after the write, undoing the first change of a series returns the already-changed patch |
| Tools.ThresholdSeriesIsOneEntry | friendly_ground_truth/controller/tools.py:321-327 | a second threshold change right after the first adds no undo entry |
| Tools.SetRadius | friendly_ground_truth/controller/tools.py:497-506 | a negative radius is rejected without change; any other is stored |
| Tools.AdjustBrush | friendly_ground_truth/controller/tools.py:569-582 | a positive direction grows the radius by 1, any other shrinks it by 1, rejected at 0, so a non-negative radius stays non-negative |
| Tools.AdjustBrushRoundTrip | friendly_ground_truth/controller/tools.py:569-582 | growing then shrinking a non-negative radius restores it |
| Common.NatToString | friendly_ground_truth/controller/tools.py:623-624 | `str(drag_id)` is a non-empty string of decimal digits whose decimal value is the id |
| Common.NatToStringInjective | friendly_ground_truth/controller/tools.py:623-624 | two ids print the same exactly when they are equal |
| Tools.DragTag | friendly_ground_truth/controller/tools.py:618-626 | every drag tag contains "adjust" and starts with `<kind>_region_adjust`; it is exactly that without a drag id, and with one it continues with `_` and digits whose decimal value is the id |
| Tools.DragTagInjective | friendly_ground_truth/controller/tools.py:618-626 | two drags share a tag exactly when they have the same polarity and the same drag id |
| Tools.NewStrokePushesEntry | friendly_ground_truth/controller/tools.py:611-633 | a drag with a new id on top of another stroke's entry is not absorbed: it pushes an entry of its own, one more on the stack below the cap |
| Tools.EditTagsNeverCoalesce | friendly_ground_truth/controller/tools.py:605-607 | the click, flood and no-root tags never merge with the entry below |
| Tools.BrushClick | friendly_ground_truth/controller/tools.py:596-609 | the pre-edit patch is pushed under "add_region"/"remove_region" (with eviction), the redo stack is untouched, then the disk is painted |
| Tools.BrushDrag | friendly_ground_truth/controller/tools.py:611-648 | the pre-edit patch is pushed under the stroke's adjust tag unless the stroke already has the top entry; then the disk is painted |
| Tools.BrushClickThenUndo | friendly_ground_truth/controller/tools.py:596-609 | one undo after a click returns the pre-click patch and restores the manager |
| Tools.DragStrokeThenUndo | friendly_ground_truth/controller/tools.py:611-633 | a two-event stroke leaves one entry, holding the patch from before the stroke |
| Tools.NewFloodTool | friendly_ground_truth/controller/tools.py:981-984 | the flood tools start at tolerance 0.05, increment 0.01, without a last click |
| Tools.BindFlood | friendly_ground_truth/controller/tools.py:1019-1022 | binding a patch forgets the last click and keeps the tolerance |
| Tools.Reflood | friendly_ground_truth/controller/tools.py:1057-1074 | with no last click nothing happens; otherwise the patch is flooded from it at the current tolerance and remembers that seed; the manager is never touched |
| Tools.SetTolerance | friendly_ground_truth/controller/tools.py:994-1004 | a rejected value (negative for add, non-positive for remove) changes nothing; an accepted one is stored and the flood re-run |
| Tools.AcceptsTolerance | friendly_ground_truth/controller/tools.py:994-997 | the add tool's setter accepts every tolerance of at least 0; the remove tool's setter (tools.py lines 1168-1171) accepts only positive ones, so 0 is refused there; no negative tolerance is ever accepted |
| Tools.FloodClick | friendly_ground_truth/controller/tools.py:1024-1037 | the click becomes the last click, the pre-edit patch is pushed under "flood_add"/"flood_remove", the patch is flooded from the click and remembers it |
| Tools.FloodAdjust | friendly_ground_truth/controller/tools.py:1039-1055 | adjusting never touches the manager and keeps the last click; the tolerance becomes the stepped value when the setter accepts it and stays otherwise; with a last click the patch is one flood of the patch before the adjustment from that click at the resulting tolerance, and remembers the click |
| Tools.FloodTwiceIsOnce | friendly_ground_truth/model/model.py:731-778 | flooding twice from one seed is flooding once at the later tolerance |
| Tools.FloodAdjustAfterClick | friendly_ground_truth/controller/tools.py:1039-1055 | after a click, an adjustment leaves exactly one flood from the click at the tolerance the tool ends with, and no new undo entry |
| Tools.FloodClickAdjustThenUndo | friendly_ground_truth/controller/tools.py:1024-1055 | however often the tolerance is adjusted after a click, one undo returns the pre-click patch |
| Tools.NextIndex | friendly_ground_truth/controller/tools.py:1432-1452 | the next index exists exactly when the current index plus 1 is below the patch count, and is that index |
| Tools.PrevIndex | friendly_ground_truth/controller/tools.py:1365-1385 | the previous index exists exactly when the current index minus 1 is non-negative (and below the count), and is that index |
| Tools.NextPrevRoundTrip | friendly_ground_truth/controller/tools.py:1365-1452 | next then previous (and previous then next) returns to the start; there is no next patch exactly at the last index and no previous one exactly at 0 |
| Tools.NoRootActivate | friendly_ground_truth/controller/tools.py:891-935 | the patch is pushed as "no_root", then cleared, and the next index is handed on |
| Control.InitialTools | friendly_ground_truth/controller/tools.py:286-1159 | the tools start with their documented parameters: threshold 0, brush radius 15, tolerance 0.05 |
| Control.NewController | friendly_ground_truth/controller/controller.py:59-112 | a fresh controller has no image, no tool, empty stacks and satisfies the invariant |
| Control.WithPatch | friendly_ground_truth/controller/controller.py:897 | replacing the current patch changes no other patch and nothing else |
| Control.BindAll | friendly_ground_truth/controller/controller.py:820-822 | binding every tool rebinds the threshold tool, clears both flood tools' last clicks and leaves the brushes |
| Control.BindOne | friendly_ground_truth/controller/controller.py:396-398 | binding the activated tool touches only that tool |
| Control.Navigate | friendly_ground_truth/controller/controller.py:781-866 | no target changes nothing; otherwise the live manager is saved into the patch being left, the target becomes current, its history (or an empty manager) becomes live, and all tools are bound to it |
| Control.NavigateAwayAndBack | friendly_ground_truth/controller/controller.py:807-818 | leaving a patch and returning restores its undo manager and the patch, which now also carries that manager as its saved history |
| Control.UndoCallback | friendly_ground_truth/controller/controller.py:873-901 | an empty undo stack changes nothing; otherwise the live patch goes onto the redo stack under the popped tag, the snapshot becomes current, and tools are locked and rebound |
| Control.RedoCallback | friendly_ground_truth/controller/controller.py:903-931 | an empty redo stack changes nothing; otherwise the live patch goes back through `add_to_undo_stack` under the popped tag and the snapshot becomes current |
| Control.UndoThenRedo | friendly_ground_truth/controller/controller.py:873-931 | undo then redo restores the patch and the whole manager when the redo stack had room |
| Control.OnActivate | friendly_ground_truth/controller/tools.py:891-1553 | markup tools do nothing on activation; previous/next navigate; undo/redo run their callbacks; no-root edits and moves on |
| Control.ActivateTool | friendly_ground_truth/controller/controller.py:379-417 | no image means nothing happens; otherwise the image, manager and index are those the tool's `on_activate` (as `OnActivate` states it) leaves on the controller with that tool bound and current, so next/previous navigate and no-root clears, pushes "no_root" and moves on; a persistent tool becomes current, only it is rebound, and a threshold tool is left unlocked; a non-persistent one leaves the previous tool current and leaves the tools as its `on_activate` does (undo/redo lock and rebind every tool, navigation rebinds the threshold tool and clears the flood seeds); a threshold tool left selected is always unlocked |
| Control.ActivateUndoThenRedo | friendly_ground_truth/controller/controller.py:379-417 | activating undo and then redo restores the image, the manager and the selected tool |
| Control.AdjustTool | friendly_ground_truth/controller/controller.py:422-439 | the selected tool's `on_adjust` runs: brushes change only their radius; the threshold tool writes back `AdjustThreshold`'s patch and manager and is unlocked when the stepped value is in range; the flood tools write back `FloodAdjust`'s patch and tool; non-markup tools change nothing; only the threshold tool can touch the manager |
| Control.ClickEvent | friendly_ground_truth/controller/controller.py:441-467 | with no tool nothing happens; the brushes write back their `on_click` edit; the flood tools write back `FloodClick`'s edit and store the click as their seed; tools other than brushes and floods change nothing; the current index and selection are kept |
| Control.DragEvent | friendly_ground_truth/controller/controller.py:469-492 | only the brushes react to a drag, drawing the stroke at once |
| Control.LoadImage | friendly_ground_truth/controller/controller.py:237-291 | the new image is shown at patch 0 with the threshold tool selected; the undo manager is left as it was |
| ControlInvariant.SoundManagerOperations | friendly_ground_truth/controller/undo_manager.py:37-113 | pushes of sound patches and pops keep a manager sound, and popped snapshots are sound |
| ControlInvariant.NavigateKeepsSound | friendly_ground_truth/controller/controller.py:781-866 | navigation keeps every patch and the live manager sound |
| ControlInvariant.UndoKeepsSound | friendly_ground_truth/controller/controller.py:873-901 | the undo callback keeps the controller sound |
| ControlInvariant.RedoKeepsSound | friendly_ground_truth/controller/controller.py:903-931 | the redo callback keeps the controller sound |
| ControlInvariant.OnActivateKeepsSound | friendly_ground_truth/controller/tools.py:891-1553 | every tool's activation keeps the controller sound |
| ControlInvariant.OnActivateSeeds | friendly_ground_truth/controller/controller.py:820-901 | activation either rebinds every tool (so no flood tool has a last click) or leaves the tools and the current patch's seeds as they were |
| ControlInvariant.ActivateKeepsValid | friendly_ground_truth/controller/controller.py:379-417 | activation from any sound state yields a reachable state; this covers the intermediate state of `load_new_image` and needs the old tool's agreement only for a non-persistent tool |
| ControlInvariant.LoadImageKeepsValid | friendly_ground_truth/controller/controller.py:237-291 | loading a freshly built image keeps the invariant |
| ControlInvariant.EditKeepsValid | friendly_ground_truth/controller/controller.py:422-492 | an event that writes a sound edit back and keeps the selected tool in agreement keeps the invariant |
| ControlInvariant.ThresholdStepSound | friendly_ground_truth/controller/tools.py:311-335 | a threshold step keeps the patch and manager sound and the lock as it was |
| ControlInvariant.FloodAdjustKeepsHistory | friendly_ground_truth/controller/tools.py:1039-1074 | a flood adjustment keeps the patch's saved history |
| ControlInvariant.AdjustKeepsValid | friendly_ground_truth/controller/controller.py:422-439 | `adjust_tool` keeps the invariant |
| ControlInvariant.ClickKeepsValid | friendly_ground_truth/controller/controller.py:441-467 | `click_event` keeps the invariant |
| ControlInvariant.DragKeepsValid | friendly_ground_truth/controller/controller.py:469-492 | `drag_event` keeps the invariant |
| ControlInvariant.AdjustFloodIsOneFill | friendly_ground_truth/controller/tools.py:1039-1074 | in a reachable state, adjusting the selected flood tool after a click leaves one flood from the click at the final tolerance, laid over the mask saved before the click, and adds no undo entry |
| Geometry.ConvertPatchToImagePos | friendly_ground_truth/controller/controller.py:679-699 | the image position is the patch position offset by the patch's grid position times the block size |
| Geometry.ConvertThenLocate | friendly_ground_truth/controller/controller.py:679-699 | a converted position lies in the padded image, `get_patch_from_coords` maps it back to the current patch, and the offset is kept |
| Geometry.Clip | friendly_ground_truth/controller/controller.py:1002-1022 | the count of window positions inside the grid is at most the grid size and the window width |
| Geometry.AppendRow | friendly_ground_truth/controller/controller.py:1010-1019 | one window row appends exactly its in-grid cells in column order and counts them while no row has been counted |
| Geometry.NeighbourIndices | friendly_ground_truth/controller/controller.py:1002-1022 | the list holds exactly the in-grid cells within one step of the patch, itself included, in strict row-major order; the row and column counts are the in-grid window sizes and their product is the list length |
| Geometry.LastIndex | friendly_ground_truth/controller/controller.py:1192 | the result is the last position of the character, or -1 when it is absent |
| Geometry.Basename | friendly_ground_truth/controller/controller.py:1192 | the base name is the longest suffix of the path without `/` |
| Geometry.SplitExt | friendly_ground_truth/controller/controller.py:1194 | root plus extension is the name; the extension is empty or a `.` followed by no other `.`; it is non-empty exactly when some non-`.` character precedes the last `.` |
| Geometry.MaskName | friendly_ground_truth/controller/controller.py:1179-1194 | a directory is a `ValueError`; otherwise the name ends in `_mask.png`, and before that is a `/`-free prefix of the base name followed in the base name only by its extension |
| IconEmbedding.Header | external_scripts/embed_icon.py:46-50 | the header is 8 characters longer than the icon name |
| IconEmbedding.Indent | external_scripts/embed_icon.py:46-47 | the indent is `len(output) - 2` for `"\n\n" + name + " = ("`, four less than the header with `b"` |
| IconEmbedding.Put | external_scripts/embed_icon.py:54-64 | at a counter of 78 or more a line break with the indent and `b"` comes first and the counter restarts at indent + 3; otherwise the character is appended and counted |
| IconEmbedding.PutAll | external_scripts/embed_icon.py:52-64 | the character loop only appends to the output, and every character adds at least itself |
| IconEmbedding.Finish | external_scripts/embed_icon.py:66-75 | below 78 the literal closes with `")` on the same line; otherwise on a fresh indented line |
| IconEmbedding.PutAllExtends | external_scripts/embed_icon.py:52-64 | writing characters only appends to the output |
| IconEmbedding.PutAllSnoc | external_scripts/embed_icon.py:52-64 | writing one more character is one more step of the loop |
| IconEmbedding.CounterStaysBelowLimit | external_scripts/embed_icon.py:52-64 | with a short enough name the line counter never passes 78 |
| IconEmbedding.FooterIsEmpty | external_scripts/embed_icon.py:66-75 | neither closing form is read back as content |
| IconEmbedding.PayloadOfPut | external_scripts/embed_icon.py:52-64 | the written text reads back as the characters written, when none is a quote |
| IconEmbedding.LiteralRoundTrip | external_scripts/embed_icon.py:46-75 | reading the literal after its header gives the icon string back, for any string without a quote |
| IconEmbedding.IconLiteral | external_scripts/embed_icon.py:46-75 | the literal starts with the header, is at least header + icon + 3 long, and ends with `)` and a newline |
| IconEmbedding.PutAllLength | external_scripts/embed_icon.py:52-64 | every character adds at least itself to the output |
| IconEmbedding.AppendStringToIconFile | external_scripts/embed_icon.py:35-75 | the script's loop, indent loops included, builds exactly the literal `IconLiteral` defines |

## Left out

- Everything under `friendly_ground_truth/view`, the widgets of the tools (sliders, spin boxes, info panels), cursors and icons: these are user interface.
- The background drawing thread of the brush drags and the preview timer: concurrency. A drag edit is modelled as drawn at once.
- File and OS input/output:
  - image, mask and preference loading and saving;
  - dialogs;
  - the final append of the icon literal to its file;
  - `os.path.isdir`, which arrives in `MaskName` as a parameter.
- The Otsu threshold, `skimage.draw.circle` and `skimage.segmentation.flood`: library numerics, taken as the uninterpreted kernels of `PixelMath.Kernels`. Only the clipping and set logic around them is modelled.
- `rgb2gray` and the overlay image: library numerics and display only.
- Canvas-to-patch coordinate rounding, and the rounding or truncation of positions inside `add_region` and the flood methods: floating point. Positions arrive as integer cells.
- Thresholds and tolerances are Dafny `real`s, so the rounding error of repeated 0.01 steps is not modelled.
- Landmark labelling, `navigate_to_patch`, the event logger and the enabling of the undo/redo buttons: no modelled tool reaches them, or they only feed the interface.
- The lock flag of every tool but the threshold tool: only the threshold tool reads it.
- The unlock that `_display_current_patch` performs after each redraw is modelled only where it changes a flag that is read: a threshold change that is accepted unlocks the selected threshold tool.
- ImageModel.NewImage: requires an image with at least one row and one column. For an empty image the block size `image.shape // num_patches` is 0 (friendly_ground_truth/model/model.py:216-217) and the failure comes from the blocking library, which is not modelled.
- PatchModel.Patch.Pixel: a pixel outside the data reads as 0. A well-formed patch never reaches that case; the source would raise an index error.
- Control.AdjustTool: requires a selected tool. Without one the source raises an attribute error.
- Control.DragEvent: the same requirement as `AdjustTool`, for the same reason.
- Control.LoadImage: does not reset the undo manager, exactly as the source. Entries from the previous image stay undoable.
- Tools.PrevIndex: returns no index when `current - 1` is past the end, where the source would index out of range. With the current index in range this never happens.
- Control.ActivateTool: assumes, as the source does, that the tool is bound to the current patch. The model passes that patch explicitly instead of holding a reference.
- Geometry.Basename: POSIX path rules only. The Windows separators of `ntpath` are not modelled.
- Geometry.SplitExt: POSIX path rules only, for the same reason.
