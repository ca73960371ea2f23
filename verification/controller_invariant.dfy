/** The controller's reachable-state invariant `Valid` is established by a
    fresh controller and kept by every transition; under it an adjustment
    of the selected flood tool replaces its fill instead of stacking it. */
module ControlInvariant {
  import opened Common
  import opened PixelMath
  import opened UndoManagement
  import opened PatchModel
  import opened ImageModel
  import opened Tools
  import opened Control

  // --------------------------------------------------------- sound pieces

  /** Pushing a sound patch onto a sound manager, on either stack, and
      popping either stack keep the manager sound; a popped snapshot is a
      sound patch. */
  lemma SoundManagerOperations(m: UndoManager<Patch>, p: Patch, tag: string)
    requires SoundManager(m) && SoundPatch(p)
    ensures SoundManager(AddToUndoStack(m, p, tag))
    ensures SoundManager(AddToRedoStack(m, p, tag))
    ensures SoundManager(Undo(m).manager) && SoundManager(Redo(m).manager)
    ensures Undo(m).entry.Some? ==> SoundPatch(Undo(m).entry.value.snapshot)
    ensures Redo(m).entry.Some? ==> SoundPatch(Redo(m).entry.value.snapshot)
  {
    StackMembers(m, p, tag);
    OperationsStayBounded(m, p, tag);
    AddKeepsNoRepeatedAdjust(m, p, tag);
    if !UndoEmpty(m) {
      assert m.undoStack[|m.undoStack| - 1] in m.undoStack;
    }
    if !RedoEmpty(m) {
      assert m.redoStack[|m.redoStack| - 1] in m.redoStack;
    }
  }

  /** Replacing the current patch by a sound one keeps every patch sound. */
  lemma WithPatchSound(c: Controller, p: Patch)
    requires Ready(c) && PatchesSound(c) && SoundPatch(p)
    ensures PatchesSound(WithPatch(c, p))
  {
  }

  /** The mask edits leave a patch's saved history alone, so a sound patch
      stays sound. */
  lemma EditsKeepHistory(p: Patch, kind: Polarity, position: Cell, radius: int, tolerance: real, t: real, k: Kernels)
    ensures Paint(kind, p, position, radius, k).history == p.history
    ensures Flood(kind, p, position, tolerance, k).history == p.history
    ensures SetThreshold(p, t).history == p.history
    ensures ClearMask(p).history == p.history
  {
  }

  // ----------------------------------------------------------- navigation

  /** Moving to a patch keeps the controller sound: the manager saved into
      the patch being left is sound, and so is the one taken over from the
      target. */
  lemma NavigateKeepsSound(c: Controller, target: Option<nat>)
    requires Sound(c) && Ready(c)
    requires target.Some? ==> target.value < |c.image.value.patches|
    ensures Sound(Navigate(c, target))
  {
    if target.Some? {
      var r := Navigate(c, target);
      assert SoundPatch(CurrentPatch(r));
    }
  }

  /** Undo keeps the controller sound. */
  lemma UndoKeepsSound(c: Controller)
    requires Sound(c) && Ready(c)
    ensures Sound(UndoCallback(c))
  {
    var u := Undo(c.undo);
    SoundManagerOperations(c.undo, CurrentPatch(c), "");
    if u.entry.Some? {
      SoundManagerOperations(u.manager, CurrentPatch(c), u.entry.value.tag);
      var m := AddToRedoStack(u.manager, CurrentPatch(c), u.entry.value.tag);
      WithPatchSound(c, u.entry.value.snapshot);
      var w := WithPatch(c, u.entry.value.snapshot);
      assert UndoCallback(c).image == w.image && UndoCallback(c).undo == m;
    }
  }

  /** Redo keeps the controller sound. */
  lemma RedoKeepsSound(c: Controller)
    requires Sound(c) && Ready(c)
    ensures Sound(RedoCallback(c))
  {
    var d := Redo(c.undo);
    SoundManagerOperations(c.undo, CurrentPatch(c), "");
    if d.entry.Some? {
      SoundManagerOperations(d.manager, CurrentPatch(c), d.entry.value.tag);
      var m := AddToUndoStack(d.manager, CurrentPatch(c), d.entry.value.tag);
      WithPatchSound(c, d.entry.value.snapshot);
      var w := WithPatch(c, d.entry.value.snapshot);
      assert RedoCallback(c).image == w.image && RedoCallback(c).undo == m;
    }
  }

  // ----------------------------------------------------------- activation

  /** Every `on_activate` keeps the controller sound. */
  lemma OnActivateKeepsSound(c: Controller, kind: ToolKind)
    requires Sound(c) && Ready(c)
    ensures Sound(OnActivate(c, kind))
  {
    var count := |c.image.value.patches|;
    match kind
    case NoRoot =>
      var s := NoRootActivate(CurrentEdit(c), c.current, count);
      EditTagsNeverCoalesce(c.undo.undoStack);
      SoundManagerOperations(c.undo, CurrentPatch(c), NO_ROOT);
      assert s.edit.undo == AddToUndoStack(c.undo, CurrentPatch(c), NO_ROOT);
      WithPatchSound(c, s.edit.patch);
      NavigateKeepsSound(WithEdit(c, s.edit), s.target);
    case PreviousPatch => NavigateKeepsSound(c, PrevIndex(c.current, count));
    case NextPatch => NavigateKeepsSound(c, NextIndex(c.current, count));
    case UndoAction => UndoKeepsSound(c);
    case RedoAction => RedoKeepsSound(c);
    case _ =>
  }

  /** What `on_activate` does to the flood tools' binding: either every tool
      was rebound (so neither flood tool has a last click), or the tools and
      the current patch's seeds are as they were. */
  lemma OnActivateSeeds(c: Controller, kind: ToolKind)
    requires Ready(c)
    ensures var r := OnActivate(c, kind);
      && Ready(r)
      && ((r.tools.floodAdd.seed.None? && r.tools.floodRemove.seed.None?)
          || (r.tools == c.tools
              && CurrentPatch(r).floodAddSeed == CurrentPatch(c).floodAddSeed
              && CurrentPatch(r).floodRemoveSeed == CurrentPatch(c).floodRemoveSeed))
  {
  }

  /** Tool activation keeps the invariant. It also covers the activation
      `load_new_image` performs, where the previously selected tool may
      disagree with the new image: a persistent tool is rebound before it is
      selected, so only a non-persistent one needs the old agreement. */
  lemma ActivateKeepsValid(c: Controller, kind: ToolKind)
    requires Sound(c) && (c.currentTool.Some? ==> c.image.Some?)
    requires !Persistent(kind) ==> ToolsAgree(c)
    ensures Valid(ActivateTool(c, kind))
  {
    if c.image.Some? {
      var bound := c.(tools := BindOne(c.tools, kind, CurrentPatch(c)), currentTool := Some(kind));
      OnActivateKeepsSound(bound, kind);
      OnActivateSeeds(bound, kind);
    }
  }

  /** Loading a freshly built image, whose patches carry no history, keeps
      the invariant. */
  lemma LoadImageKeepsValid(c: Controller, img: Image)
    requires Valid(c) && |img.patches| > 0
    requires forall k | 0 <= k < |img.patches| :: img.patches[k].history.None?
    ensures Valid(LoadImage(c, img))
  {
    ActivateKeepsValid(c.(image := Some(img), current := 0), Threshold);
  }

  // --------------------------------------------------------------- events

  /** An event that writes a sound edit back and leaves the selected tool
      agreeing with the patch keeps the invariant. */
  lemma EditKeepsValid(c: Controller, e: Edit, tools: ToolSet)
    requires Valid(c) && c.image.Some?
    requires SoundManager(e.undo) && SoundPatch(e.patch)
    requires ToolsAgree(WithEdit(c, e).(tools := tools))
    ensures Valid(WithEdit(c, e).(tools := tools))
  {
    WithPatchSound(c, e.patch);
  }

  /** A threshold step keeps the edit sound and the lock as it was. */
  lemma ThresholdStepSound(t: ThresholdTool, e: Edit, direction: int)
    requires SoundManager(e.undo) && SoundPatch(e.patch)
    ensures var r := AdjustThreshold(t, e, direction);
      SoundManager(r.edit.undo) && SoundPatch(r.edit.patch) && r.tool.canUndo == t.canUndo
  {
    var v := if direction < 0 then t.threshold + t.increment else t.threshold - t.increment;
    var r := SetToolThreshold(t, e, v);
    assert AdjustThreshold(t, e, direction) == r;
    if InRange(v) && !t.newPatch {
      assert r.edit.patch.history == e.patch.history;
      SoundManagerOperations(e.undo, r.edit.patch, THRESHOLD_ADJUST);
    }
  }

  /** A flood adjustment keeps the patch's history and the manager. */
  lemma FloodAdjustKeepsHistory(kind: Polarity, f: FloodTool, e: Edit, direction: int, k: Kernels)
    ensures FloodAdjust(kind, f, e, direction, k).edit.patch.history == e.patch.history
  {
    var v := if direction > 0 then f.tolerance + f.increment else f.tolerance - f.increment;
    var s := SetTolerance(kind, f, e, v, k);
    assert s.edit.patch.history == e.patch.history;
  }

  /** `adjust_tool` keeps the invariant. */
  lemma AdjustKeepsValid(c: Controller, direction: int, k: Kernels)
    requires Valid(c) && c.image.Some?
    ensures Valid(AdjustTool(c, direction, k))
  {
    var e := CurrentEdit(c);
    match c.currentTool.value
    case Threshold =>
      var t := c.tools.threshold;
      var v := if direction < 0 then t.threshold + t.increment else t.threshold - t.increment;
      var s := AdjustThreshold(t, e, direction);
      ThresholdStepSound(t, e, direction);
      var tool := if InRange(v) then s.tool.(canUndo := true) else s.tool;
      EditKeepsValid(c, s.edit, c.tools.(threshold := tool));
    case FloodAdd =>
      var s := FloodAdjust(Add, c.tools.floodAdd, e, direction, k);
      FloodAdjustKeepsHistory(Add, c.tools.floodAdd, e, direction, k);
      EditKeepsValid(c, s.edit, c.tools.(floodAdd := s.tool));
    case FloodRemove =>
      var s := FloodAdjust(Remove, c.tools.floodRemove, e, direction, k);
      FloodAdjustKeepsHistory(Remove, c.tools.floodRemove, e, direction, k);
      EditKeepsValid(c, s.edit, c.tools.(floodRemove := s.tool));
    case _ =>
  }

  /** `click_event` keeps the invariant. */
  lemma ClickKeepsValid(c: Controller, position: Cell, k: Kernels)
    requires Valid(c)
    ensures Valid(ClickEvent(c, position, k))
  {
    if c.currentTool.Some? {
      var e := CurrentEdit(c);
      var p := CurrentPatch(c);
      EditsKeepHistory(p, Add, position, c.tools.addBrush.radius, c.tools.floodAdd.tolerance, 0.0, k);
      EditsKeepHistory(p, Remove, position, c.tools.removeBrush.radius, c.tools.floodRemove.tolerance, 0.0, k);
      match c.currentTool.value
      case AddRegion =>
        SoundManagerOperations(c.undo, p, ClickTag(Add));
        EditKeepsValid(c, BrushClick(Add, c.tools.addBrush, e, position, k), c.tools);
      case RemoveRegion =>
        SoundManagerOperations(c.undo, p, ClickTag(Remove));
        EditKeepsValid(c, BrushClick(Remove, c.tools.removeBrush, e, position, k), c.tools);
      case FloodAdd =>
        SoundManagerOperations(c.undo, p, FloodTag(Add));
        var s := FloodClick(Add, c.tools.floodAdd, e, position, k);
        EditKeepsValid(c, s.edit, c.tools.(floodAdd := s.tool));
      case FloodRemove =>
        SoundManagerOperations(c.undo, p, FloodTag(Remove));
        var s := FloodClick(Remove, c.tools.floodRemove, e, position, k);
        EditKeepsValid(c, s.edit, c.tools.(floodRemove := s.tool));
      case _ =>
    }
  }

  /** `drag_event` keeps the invariant. */
  lemma DragKeepsValid(c: Controller, position: Cell, dragId: Option<nat>, k: Kernels)
    requires Valid(c) && c.image.Some?
    ensures Valid(DragEvent(c, position, dragId, k))
  {
    var e := CurrentEdit(c);
    var p := CurrentPatch(c);
    match c.currentTool.value
    case AddRegion =>
      EditsKeepHistory(p, Add, position, c.tools.addBrush.radius, 0.0, 0.0, k);
      SoundManagerOperations(c.undo, p, DragTag(Add, dragId));
      EditKeepsValid(c, BrushDrag(Add, c.tools.addBrush, e, position, dragId, k), c.tools);
    case RemoveRegion =>
      EditsKeepHistory(p, Remove, position, c.tools.removeBrush.radius, 0.0, 0.0, k);
      SoundManagerOperations(c.undo, p, DragTag(Remove, dragId));
      EditKeepsValid(c, BrushDrag(Remove, c.tools.removeBrush, e, position, dragId, k), c.tools);
    case _ =>
  }

  // --------------------------------------------------------------- payoff

  /** The tool kind that drives floods of the given polarity. */
  function FloodToolKind(kind: Polarity): ToolKind {
    match kind
    case Add => FloodAdd
    case Remove => FloodRemove
  }

  function FloodToolOf(t: ToolSet, kind: Polarity): FloodTool {
    match kind
    case Add => t.floodAdd
    case Remove => t.floodRemove
  }

  /** In a reachable state, adjusting the selected flood tool after a click
      leaves the patch as one flood from that click at the tolerance the
      tool ends with: the setter's re-run and the adjustment's own re-run do
      not stack, the fill is laid over the mask saved before the click, and
      no undo entry is added. */
  lemma AdjustFloodIsOneFill(c: Controller, kind: Polarity, direction: int, k: Kernels)
    requires Valid(c) && c.currentTool == Some(FloodToolKind(kind))
    requires FloodToolOf(c.tools, kind).seed.Some?
    ensures var f := FloodToolOf(c.tools, kind);
      var r := AdjustTool(c, direction, k);
      && FloodToolOf(r.tools, kind).seed == f.seed
      && CurrentPatch(r) == Flood(kind, CurrentPatch(c), f.seed.value, FloodToolOf(r.tools, kind).tolerance, k)
      && r.undo == c.undo
      && CurrentPatch(r).oldMask == CurrentPatch(c).oldMask
      && (kind == Add ==>
            (CurrentPatch(r).mask ==
             CurrentPatch(c).oldMask + FloodCells(CurrentPatch(c), f.seed.value, FloodToolOf(r.tools, kind).tolerance, k)))
      && (kind == Remove ==>
            (CurrentPatch(r).mask ==
             CurrentPatch(c).oldMask - FloodCells(CurrentPatch(c), f.seed.value, FloodToolOf(r.tools, kind).tolerance, k)))
  {
    var f := FloodToolOf(c.tools, kind);
    var s := f.seed.value;
    var p := CurrentPatch(c);
    var v := if direction > 0 then f.tolerance + f.increment else f.tolerance - f.increment;
    if AcceptsTolerance(kind, v) {
      FloodTwiceIsOnce(kind, p, s, v, v, k);
    }
  }
}
