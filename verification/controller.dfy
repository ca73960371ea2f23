/** The controller: the loaded image, the index of the patch on screen, the
    undo manager of that patch, the tools and the selected tool. Tool
    activation, the event hooks, undo/redo and navigation are transitions
    of this state. */
module Control {
  import opened Common
  import opened PixelMath
  import opened UndoManagement
  import opened PatchModel
  import opened ImageModel
  import opened Tools

  /** The per-tool state that outlives a single event. Of the lock flags only
      the threshold tool's is ever read, so it is the only one kept. */
  datatype ToolSet = ToolSet(
    threshold: ThresholdTool,
    addBrush: BrushTool,
    removeBrush: BrushTool,
    floodAdd: FloodTool,
    floodRemove: FloodTool)

  function InitialTools(): (r: ToolSet)
    ensures r.threshold == NewThresholdTool()
    ensures r.addBrush.radius == INITIAL_BRUSH_RADIUS && r.removeBrush.radius == INITIAL_BRUSH_RADIUS
    ensures r.floodAdd == NewFloodTool() && r.floodRemove == NewFloodTool()
  {
    ToolSet(NewThresholdTool(), BrushTool(INITIAL_BRUSH_RADIUS), BrushTool(INITIAL_BRUSH_RADIUS),
            NewFloodTool(), NewFloodTool())
  }

  datatype Controller = Controller(
    image: Option<Image>,
    current: nat,
    undo: UndoManager<Patch>,
    tools: ToolSet,
    currentTool: Option<ToolKind>)

  /** A freshly started controller: no image, no tool, empty stacks. */
  function NewController(): (r: Controller)
    ensures Valid(r)
    ensures r.image.None? && r.currentTool.None? && r.current == 0
    ensures UndoEmpty(r.undo) && RedoEmpty(r.undo)
  {
    Controller(None, 0, Empty(), InitialTools(), None)
  }

  // ------------------------------------------------------------- invariant

  /** A patch whose saved history, and every snapshot reachable through it,
      is sound. */
  ghost predicate SoundPatch(p: Patch)
    decreases p, 1
  {
    match p.history
    case None => true
    case Some(m) => SoundManager(m)
  }

  /** A manager within bounds, with no two coalescible neighbours on its undo
      stack, whose snapshots are all sound patches. */
  ghost predicate SoundManager(m: UndoManager<Patch>)
    decreases m, 0
  {
    && Bounded(m) && NoRepeatedAdjust(m.undoStack)
    && (forall e | e in m.undoStack :: SoundPatch(e.snapshot))
    && (forall e | e in m.redoStack :: SoundPatch(e.snapshot))
  }

  /** An image is loaded and the current index addresses one of its patches. */
  predicate Ready(c: Controller) {
    c.image.Some? && c.current < |c.image.value.patches|
  }

  function CurrentPatch(c: Controller): Patch
    requires Ready(c)
  {
    c.image.value.patches[c.current]
  }

  /** Every patch of the loaded image is sound. */
  ghost predicate PatchesSound(c: Controller) {
    c.image.Some? ==> forall k | 0 <= k < |c.image.value.patches| :: SoundPatch(c.image.value.patches[k])
  }

  /** The selected tool agrees with the patch it acts on: a selected flood
      tool's last click is the seed the patch remembers, and a selected
      threshold tool has undos unlocked and is bound to the current patch. */
  predicate ToolsAgree(c: Controller) {
    Ready(c) ==>
      && (c.currentTool == Some(FloodAdd) && c.tools.floodAdd.seed.Some? ==>
            CurrentPatch(c).floodAddSeed == c.tools.floodAdd.seed)
      && (c.currentTool == Some(FloodRemove) && c.tools.floodRemove.seed.Some? ==>
            CurrentPatch(c).floodRemoveSeed == c.tools.floodRemove.seed)
      && (c.currentTool == Some(Threshold) ==> c.tools.threshold.canUndo)
      && (c.currentTool == Some(Threshold) ==> c.tools.threshold.bound == Some(CurrentPatch(c).index))
  }

  /** The live undo manager and every patch are sound, and the current
      index addresses a patch when an image is loaded. */
  ghost predicate Sound(c: Controller) {
    && SoundManager(c.undo)
    && (c.image.Some? ==> c.current < |c.image.value.patches|)
    && PatchesSound(c)
  }

  /** The states the controller can reach: sound, with a tool selected
      exactly when an image is loaded, and the selected tool agreeing with
      the current patch. */
  ghost predicate Valid(c: Controller) {
    && Sound(c)
    && (c.image.Some? <==> c.currentTool.Some?)
    && ToolsAgree(c)
  }

  // ------------------------------------------------------------- plumbing

  /** Replace the current patch. */
  function WithPatch(c: Controller, p: Patch): (r: Controller)
    requires Ready(c)
    ensures Ready(r) && CurrentPatch(r) == p
    ensures r.current == c.current && r.undo == c.undo && r.tools == c.tools && r.currentTool == c.currentTool
    ensures |r.image.value.patches| == |c.image.value.patches|
    ensures forall k | 0 <= k < |c.image.value.patches| && k != c.current ::
      r.image.value.patches[k] == c.image.value.patches[k]
  {
    var img := c.image.value;
    c.(image := Some(img.(patches := img.patches[c.current := p])))
  }

  /** Write back what a tool did to the current patch and the manager. */
  function WithEdit(c: Controller, e: Edit): (r: Controller)
    requires Ready(c)
    ensures Ready(r) && CurrentPatch(r) == e.patch && r.undo == e.undo
    ensures r.current == c.current && r.tools == c.tools && r.currentTool == c.currentTool
  {
    WithPatch(c, e.patch).(undo := e.undo)
  }

  function CurrentEdit(c: Controller): (r: Edit)
    requires Ready(c)
    ensures r.patch == CurrentPatch(c) && r.undo == c.undo
  {
    Edit(CurrentPatch(c), c.undo)
  }

  /** Every tool's `patch` setter: the threshold tool takes the patch's
      threshold, the flood tools forget their last click. */
  function BindAll(t: ToolSet, p: Patch): (r: ToolSet)
    ensures r.threshold == BindThreshold(t.threshold, p)
    ensures r.addBrush == t.addBrush && r.removeBrush == t.removeBrush
    ensures r.floodAdd == BindFlood(t.floodAdd) && r.floodRemove == BindFlood(t.floodRemove)
  {
    t.(threshold := BindThreshold(t.threshold, p), floodAdd := BindFlood(t.floodAdd),
       floodRemove := BindFlood(t.floodRemove))
  }

  /** `tool.patch = ...` for the one tool being activated. */
  function BindOne(t: ToolSet, kind: ToolKind, p: Patch): (r: ToolSet)
    ensures kind == Threshold ==> r == t.(threshold := BindThreshold(t.threshold, p))
    ensures kind == FloodAdd ==> r == t.(floodAdd := BindFlood(t.floodAdd))
    ensures kind == FloodRemove ==> r == t.(floodRemove := BindFlood(t.floodRemove))
    ensures kind !in {Threshold, FloodAdd, FloodRemove} ==> r == t
  {
    match kind
    case Threshold => t.(threshold := BindThreshold(t.threshold, p))
    case FloodAdd => t.(floodAdd := BindFlood(t.floodAdd))
    case FloodRemove => t.(floodRemove := BindFlood(t.floodRemove))
    case _ => t
  }

  // ------------------------------------------------------------ navigation

  /** `_next_patch_callback` / `_prev_patch_callback` once a target is known.
      `None` (the `(None, -1)` pair) changes nothing. Otherwise a copy of the
      live manager is saved into the patch being left, the target becomes
      current, its saved history (or a fresh manager) becomes live, and
      every tool is bound to the target. */
  function Navigate(c: Controller, target: Option<nat>): (r: Controller)
    requires Ready(c)
    requires target.Some? ==> target.value < |c.image.value.patches|
    ensures target.None? ==> r == c
    ensures target.Some? ==>
      && Ready(r) && r.current == target.value && r.currentTool == c.currentTool
      && |r.image.value.patches| == |c.image.value.patches|
      && r.image.value.patches[c.current] == CurrentPatch(c).(history := Some(c.undo))
      && (forall k | 0 <= k < |c.image.value.patches| && k != c.current ::
            r.image.value.patches[k] == c.image.value.patches[k])
      && r.undo == CurrentPatch(r).history.GetOr(Empty())
      && r.tools == BindAll(c.tools, CurrentPatch(r))
  {
    match target
    case None => c
    case Some(i) =>
      var saved := WithPatch(c, CurrentPatch(c).(history := Some(c.undo)));
      var q := saved.image.value.patches[i];
      saved.(current := i, undo := q.history.GetOr(Empty()), tools := BindAll(c.tools, q))
  }

  /** Leaving a patch and coming back to it restores the undo manager it was
      left with, and the patch itself apart from the saved history. */
  lemma NavigateAwayAndBack(c: Controller, i: nat)
    requires Ready(c) && i < |c.image.value.patches| && i != c.current
    ensures var back := Navigate(Navigate(c, Some(i)), Some(c.current));
      && back.current == c.current
      && back.undo == c.undo
      && CurrentPatch(back) == CurrentPatch(c).(history := Some(c.undo))
  {
  }

  // ------------------------------------------------------------ undo/redo

  /** The undo tool's activation: pop the undo stack and, when it held an
      entry, push a copy of the live patch on the redo stack under the same
      tag, install the popped snapshot as the current patch, lock undos and
      bind every tool to the snapshot. */
  function UndoCallback(c: Controller): (r: Controller)
    requires Ready(c)
    ensures UndoEmpty(c.undo) ==> r == c
    ensures !UndoEmpty(c.undo) ==>
      var top := c.undo.undoStack[|c.undo.undoStack| - 1];
      && Ready(r) && r.current == c.current && r.currentTool == c.currentTool
      && CurrentPatch(r) == top.snapshot
      && r.undo.undoStack == c.undo.undoStack[..|c.undo.undoStack| - 1]
      && r.undo.redoStack == PushEvicting(c.undo.redoStack, Entry(CurrentPatch(c), top.tag))
      && r.tools == BindAll(c.tools, top.snapshot).(threshold := BindThreshold(c.tools.threshold, top.snapshot).(canUndo := false))
  {
    var popped := Undo(c.undo);
    match popped.entry
    case None => c
    case Some(e) =>
      var m := AddToRedoStack(popped.manager, CurrentPatch(c), e.tag);
      var locked := c.tools.(threshold := c.tools.threshold.(canUndo := false));
      WithPatch(c, e.snapshot).(undo := m, tools := BindAll(locked, e.snapshot))
  }

  /** The redo tool's activation: as undo with the stacks swapped, except
      that the live patch goes back through `add_to_undo_stack` and so is
      subject to coalescing. */
  function RedoCallback(c: Controller): (r: Controller)
    requires Ready(c)
    ensures RedoEmpty(c.undo) ==> r == c
    ensures !RedoEmpty(c.undo) ==>
      var top := c.undo.redoStack[|c.undo.redoStack| - 1];
      var rest := c.undo.(redoStack := c.undo.redoStack[..|c.undo.redoStack| - 1]);
      && Ready(r) && r.current == c.current && r.currentTool == c.currentTool
      && CurrentPatch(r) == top.snapshot
      && r.undo == AddToUndoStack(rest, CurrentPatch(c), top.tag)
      && r.tools == BindAll(c.tools, top.snapshot).(threshold := BindThreshold(c.tools.threshold, top.snapshot).(canUndo := false))
  {
    var popped := Redo(c.undo);
    match popped.entry
    case None => c
    case Some(e) =>
      var m := AddToUndoStack(popped.manager, CurrentPatch(c), e.tag);
      var locked := c.tools.(threshold := c.tools.threshold.(canUndo := false));
      WithPatch(c, e.snapshot).(undo := m, tools := BindAll(locked, e.snapshot))
  }

  /** Undo followed by redo puts back the patch and the whole undo manager,
      provided the redo stack had room. The no-repeated-adjust shape of the
      undo stack is what stops the redo push from being absorbed. */
  lemma UndoThenRedo(c: Controller)
    requires Ready(c) && !UndoEmpty(c.undo)
    requires NoRepeatedAdjust(c.undo.undoStack) && |c.undo.undoStack| <= MAX_SIZE
    requires |c.undo.redoStack| < MAX_SIZE
    ensures var r := RedoCallback(UndoCallback(c));
      && Ready(r) && r.current == c.current
      && CurrentPatch(r) == CurrentPatch(c)
      && r.undo == c.undo
      && r.image == c.image
  {
    var u := c.undo.undoStack;
    var n := |u| - 1;
    var c1 := UndoCallback(c);
    assert u[..n] + [u[n]] == u;
    assert !Coalesces(u[..n], u[n].tag) by {
      if n > 0 {
        assert !Coalesces(u[..n], u[n].tag);
      } else {
        assert |u[..n]| == 0;
      }
    }
    assert c1.undo.redoStack[..|c1.undo.redoStack| - 1] == c.undo.redoStack;
    var r := RedoCallback(c1);
    assert r.image.value.patches == c.image.value.patches;
  }

  // ------------------------------------------------------------ activation

  /** `on_activate` of each tool, run while that tool is current. */
  function OnActivate(c: Controller, kind: ToolKind): (r: Controller)
    requires Ready(c)
    ensures kind in {Threshold, AddRegion, RemoveRegion, FloodAdd, FloodRemove} ==> r == c
    ensures kind == PreviousPatch ==> r == Navigate(c, PrevIndex(c.current, |c.image.value.patches|))
    ensures kind == NextPatch ==> r == Navigate(c, NextIndex(c.current, |c.image.value.patches|))
    ensures kind == UndoAction ==> r == UndoCallback(c)
    ensures kind == RedoAction ==> r == RedoCallback(c)
    ensures kind == NoRoot ==>
      var s := NoRootActivate(CurrentEdit(c), c.current, |c.image.value.patches|);
      r == Navigate(WithEdit(c, s.edit), s.target)
  {
    var count := |c.image.value.patches|;
    match kind
    case NoRoot =>
      var s := NoRootActivate(CurrentEdit(c), c.current, count);
      Navigate(WithEdit(c, s.edit), s.target)
    case PreviousPatch => Navigate(c, PrevIndex(c.current, count))
    case NextPatch => Navigate(c, NextIndex(c.current, count))
    case UndoAction => UndoCallback(c)
    case RedoAction => RedoCallback(c)
    case _ => c
  }

  /** `activate_tool(id)`. Nothing happens without an image. Otherwise the
      tool is bound to the current patch, made current and activated; a
      non-persistent tool then hands the selection back to the tool that had
      it. The tool left selected has its undos unlocked. */
  function ActivateTool(c: Controller, kind: ToolKind): (r: Controller)
    requires Ready(c) || c.image.None?
    ensures c.image.None? ==> r == c
    ensures c.image.Some? ==> Ready(r)
    ensures c.image.Some? && Persistent(kind) ==> r.currentTool == Some(kind)
    ensures c.image.Some? && !Persistent(kind) && c.currentTool.Some? ==> r.currentTool == c.currentTool
    ensures c.image.Some? && !Persistent(kind) && c.currentTool.None? ==> r.currentTool == Some(kind)
    ensures c.image.Some? && Persistent(kind) ==> r.image == c.image && r.undo == c.undo
    ensures c.image.Some? ==>
      var acted := OnActivate(c.(tools := BindOne(c.tools, kind, CurrentPatch(c)), currentTool := Some(kind)), kind);
      r.image == acted.image && r.undo == acted.undo && r.current == acted.current
    ensures c.image.Some? && Persistent(kind) ==>
      r.tools == (var b := BindOne(c.tools, kind, CurrentPatch(c));
                  if kind == Threshold then b.(threshold := b.threshold.(canUndo := true)) else b)
    ensures c.image.Some? && r.currentTool == Some(Threshold) ==> r.tools.threshold.canUndo
    ensures c.image.Some? && !Persistent(kind) ==>
      var acted := OnActivate(c.(tools := BindOne(c.tools, kind, CurrentPatch(c)), currentTool := Some(kind)), kind);
      r.tools == (if r.currentTool == Some(Threshold)
                  then acted.tools.(threshold := acted.tools.threshold.(canUndo := true))
                  else acted.tools)
  {
    if c.image.None? then c
    else
      var bound := c.(tools := BindOne(c.tools, kind, CurrentPatch(c)), currentTool := Some(kind));
      var acted := OnActivate(bound, kind);
      var final := if !Persistent(kind) && c.currentTool.Some? then c.currentTool else Some(kind);
      var unlocked := if final == Some(Threshold)
                      then acted.tools.(threshold := acted.tools.threshold.(canUndo := true))
                      else acted.tools;
      acted.(currentTool := final, tools := unlocked)
  }

  /** Activating undo and then redo puts back the image and the undo manager
      and leaves the same tool selected. */
  lemma ActivateUndoThenRedo(c: Controller)
    requires Valid(c) && c.image.Some? && !UndoEmpty(c.undo) && |c.undo.redoStack| < MAX_SIZE
    ensures var r := ActivateTool(ActivateTool(c, UndoAction), RedoAction);
      r.image == c.image && r.undo == c.undo && r.currentTool == c.currentTool
  {
    var b := c.(tools := BindOne(c.tools, UndoAction, CurrentPatch(c)), currentTool := Some(UndoAction));
    UndoThenRedo(b);
    ActivateCallbackState(c, UndoAction);
    var c1 := ActivateTool(c, UndoAction);
    var b1 := c1.(tools := BindOne(c1.tools, RedoAction, CurrentPatch(c1)), currentTool := Some(RedoAction));
    ActivateCallbackState(c1, RedoAction);
    RedoIgnoresTools(b1, UndoCallback(b));
  }

  /** Activating undo or redo runs the callback on the bound controller and
      leaves the previously selected tool selected. */
  lemma ActivateCallbackState(c: Controller, kind: ToolKind)
    requires Ready(c) && kind in {UndoAction, RedoAction}
    ensures var r := ActivateTool(c, kind);
      var acted := OnActivate(c.(tools := BindOne(c.tools, kind, CurrentPatch(c)), currentTool := Some(kind)), kind);
      && r.image == acted.image && r.undo == acted.undo && r.current == acted.current
      && r.currentTool == (if c.currentTool.Some? then c.currentTool else Some(kind))
  {
  }

  /** What the redo callback does to the image and the manager does not
      depend on the tools. */
  lemma RedoIgnoresTools(a: Controller, b: Controller)
    requires Ready(a) && Ready(b) && a.image == b.image && a.current == b.current && a.undo == b.undo
    ensures RedoCallback(a).image == RedoCallback(b).image && RedoCallback(a).undo == RedoCallback(b).undo
  {
  }

  // ---------------------------------------------------------------- events

  /** `adjust_tool(direction)`: the selected tool's `on_adjust`. A valid
      threshold change redraws the patch, which unlocks the selected tool. */
  function AdjustTool(c: Controller, direction: int, k: Kernels): (r: Controller)
    requires Ready(c) && c.currentTool.Some?
    ensures Ready(r) && r.current == c.current && r.currentTool == c.currentTool
    ensures c.currentTool.value !in {Threshold, AddRegion, RemoveRegion, FloodAdd, FloodRemove} ==> r == c
    ensures c.currentTool.value in {AddRegion, RemoveRegion, FloodAdd, FloodRemove} ==> r.undo == c.undo
    ensures c.currentTool == Some(AddRegion) ==> r == c.(tools := c.tools.(addBrush := AdjustBrush(c.tools.addBrush, direction)))
    ensures c.currentTool == Some(RemoveRegion) ==> r == c.(tools := c.tools.(removeBrush := AdjustBrush(c.tools.removeBrush, direction)))
    ensures c.currentTool == Some(Threshold) ==>
      var t := c.tools.threshold;
      var v := if direction < 0 then t.threshold + t.increment else t.threshold - t.increment;
      var s := AdjustThreshold(t, CurrentEdit(c), direction);
      && CurrentPatch(r) == s.edit.patch && r.undo == s.edit.undo
      && r.tools == c.tools.(threshold := s.tool.(canUndo := s.tool.canUndo || InRange(v)))
    ensures c.currentTool == Some(FloodAdd) ==>
      var s := FloodAdjust(Add, c.tools.floodAdd, CurrentEdit(c), direction, k);
      r == WithEdit(c, s.edit).(tools := c.tools.(floodAdd := s.tool))
    ensures c.currentTool == Some(FloodRemove) ==>
      var s := FloodAdjust(Remove, c.tools.floodRemove, CurrentEdit(c), direction, k);
      r == WithEdit(c, s.edit).(tools := c.tools.(floodRemove := s.tool))
  {
    var e := CurrentEdit(c);
    match c.currentTool.value
    case Threshold =>
      var t := c.tools.threshold;
      var v := if direction < 0 then t.threshold + t.increment else t.threshold - t.increment;
      var s := AdjustThreshold(t, e, direction);
      var tool := if InRange(v) then s.tool.(canUndo := true) else s.tool;
      WithEdit(c, s.edit).(tools := c.tools.(threshold := tool))
    case AddRegion => c.(tools := c.tools.(addBrush := AdjustBrush(c.tools.addBrush, direction)))
    case RemoveRegion => c.(tools := c.tools.(removeBrush := AdjustBrush(c.tools.removeBrush, direction)))
    case FloodAdd =>
      var s := FloodAdjust(Add, c.tools.floodAdd, e, direction, k);
      WithEdit(c, s.edit).(tools := c.tools.(floodAdd := s.tool))
    case FloodRemove =>
      var s := FloodAdjust(Remove, c.tools.floodRemove, e, direction, k);
      WithEdit(c, s.edit).(tools := c.tools.(floodRemove := s.tool))
    case _ => c
  }

  /** `click_event(pos)` with `pos` already converted to patch coordinates:
      the selected tool's `on_click`, or nothing when no tool is selected. */
  function ClickEvent(c: Controller, position: Cell, k: Kernels): (r: Controller)
    requires c.currentTool.Some? ==> Ready(c)
    ensures c.currentTool.None? ==> r == c
    ensures c.currentTool.Some? ==> Ready(r) && r.current == c.current && r.currentTool == c.currentTool
    ensures c.currentTool.Some? && c.currentTool.value !in {AddRegion, RemoveRegion, FloodAdd, FloodRemove} ==> r == c
    ensures c.currentTool == Some(AddRegion) ==> r == WithEdit(c, BrushClick(Add, c.tools.addBrush, CurrentEdit(c), position, k))
    ensures c.currentTool == Some(RemoveRegion) ==> r == WithEdit(c, BrushClick(Remove, c.tools.removeBrush, CurrentEdit(c), position, k))
    ensures c.currentTool == Some(FloodAdd) ==>
      var s := FloodClick(Add, c.tools.floodAdd, CurrentEdit(c), position, k);
      r == WithEdit(c, s.edit).(tools := c.tools.(floodAdd := s.tool))
    ensures c.currentTool == Some(FloodRemove) ==>
      var s := FloodClick(Remove, c.tools.floodRemove, CurrentEdit(c), position, k);
      r == WithEdit(c, s.edit).(tools := c.tools.(floodRemove := s.tool))
  {
    if c.currentTool.None? then c
    else
      var e := CurrentEdit(c);
      match c.currentTool.value
      case AddRegion => WithEdit(c, BrushClick(Add, c.tools.addBrush, e, position, k))
      case RemoveRegion => WithEdit(c, BrushClick(Remove, c.tools.removeBrush, e, position, k))
      case FloodAdd =>
        var s := FloodClick(Add, c.tools.floodAdd, e, position, k);
        WithEdit(c, s.edit).(tools := c.tools.(floodAdd := s.tool))
      case FloodRemove =>
        var s := FloodClick(Remove, c.tools.floodRemove, e, position, k);
        WithEdit(c, s.edit).(tools := c.tools.(floodRemove := s.tool))
      case _ => c
  }

  /** `drag_event(pos, drag_id)`: the selected tool's `on_drag`; only the
      brushes react, and the stroke is drawn at once. */
  function DragEvent(c: Controller, position: Cell, dragId: Option<nat>, k: Kernels): (r: Controller)
    requires Ready(c) && c.currentTool.Some?
    ensures Ready(r) && r.current == c.current && r.currentTool == c.currentTool && r.tools == c.tools
    ensures c.currentTool.value !in {AddRegion, RemoveRegion} ==> r == c
    ensures c.currentTool == Some(AddRegion) ==>
      r == WithEdit(c, BrushDrag(Add, c.tools.addBrush, CurrentEdit(c), position, dragId, k))
    ensures c.currentTool == Some(RemoveRegion) ==>
      r == WithEdit(c, BrushDrag(Remove, c.tools.removeBrush, CurrentEdit(c), position, dragId, k))
  {
    var e := CurrentEdit(c);
    match c.currentTool.value
    case AddRegion => WithEdit(c, BrushDrag(Add, c.tools.addBrush, e, position, dragId, k))
    case RemoveRegion => WithEdit(c, BrushDrag(Remove, c.tools.removeBrush, e, position, dragId, k))
    case _ => c
  }

  /** `load_new_image` once the file is read: the image replaces the old
      one, the first patch becomes current and the threshold tool is
      activated. The undo manager is left as it was. */
  function LoadImage(c: Controller, img: Image): (r: Controller)
    requires |img.patches| > 0
    ensures Ready(r) && r.current == 0 && r.image == Some(img)
    ensures r.currentTool == Some(Threshold)
    ensures r.undo == c.undo
  {
    ActivateTool(c.(image := Some(img), current := 0), Threshold)
  }
}
