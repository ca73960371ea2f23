/** The annotation tools. A tool is modelled by its own parameters only; the
    patch it edits and the undo manager it records into are passed in and
    handed back as an `Edit`. */
module Tools {
  import opened Common
  import opened PixelMath
  import opened UndoManagement
  import opened PatchModel

  datatype ToolKind =
    | Threshold | AddRegion | RemoveRegion | NoRoot | FloodAdd | FloodRemove
    | PreviousPatch | NextPatch | UndoAction | RedoAction

  /** The numeric id each tool registers under. */
  function Id(kind: ToolKind): (r: nat)
    ensures 1 <= r <= 10
  {
    match kind
    case Threshold => 1
    case AddRegion => 2
    case RemoveRegion => 3
    case NoRoot => 4
    case FloodAdd => 5
    case FloodRemove => 6
    case PreviousPatch => 7
    case NextPatch => 8
    case UndoAction => 9
    case RedoAction => 10
  }

  /** No two tools share an id, so the id-keyed tool table holds all ten. */
  lemma IdsDistinct(a: ToolKind, b: ToolKind)
    ensures Id(a) == Id(b) <==> a == b
  {
  }

  /** The markup tools stay selected; navigation, no-root, undo and redo act
      once and hand control back. */
  predicate Persistent(kind: ToolKind): (r: bool)
    ensures r <==> kind in {Threshold, AddRegion, RemoveRegion, FloodAdd, FloodRemove}
    ensures !r <==> kind in {NoRoot, PreviousPatch, NextPatch, UndoAction, RedoAction}
  {
    match kind
    case Threshold | AddRegion | RemoveRegion | FloodAdd | FloodRemove => true
    case NoRoot | PreviousPatch | NextPatch | UndoAction | RedoAction => false
  }

  /** Whether a brush or flood tool adds to or removes from the mask. */
  datatype Polarity = Add | Remove

  /** What a tool edits: the patch it is bound to and the undo manager. */
  datatype Edit = Edit(patch: Patch, undo: UndoManager<Patch>)

  // ---------------------------------------------------------------- threshold

  const THRESHOLD_INCREMENT: real := 0.01

  /** `newPatch` is `_new_patch`; `bound` is the grid index of the bound
      patch (`None` before the first binding); `canUndo` is `_can_undo`. */
  datatype ThresholdTool = ThresholdTool(
    threshold: real, increment: real, newPatch: bool, bound: Option<GridIndex>, canUndo: bool)

  function NewThresholdTool(): (r: ThresholdTool)
    ensures r.threshold == 0.0 && r.increment == THRESHOLD_INCREMENT
    ensures !r.newPatch && r.bound.None? && r.canUndo
  {
    ThresholdTool(0.0, THRESHOLD_INCREMENT, false, None, true)
  }

  /** The `patch` setter: the tool takes the patch's threshold, and the
      patch counts as new when nothing was bound before or the grid index
      differs. Rebinding the same index keeps the flag as it was. */
  function BindThreshold(t: ThresholdTool, p: Patch): (r: ThresholdTool)
    ensures r.threshold == p.threshold && r.bound == Some(p.index)
    ensures r.increment == t.increment && r.canUndo == t.canUndo
    ensures r.newPatch <==> t.newPatch || t.bound != Some(p.index)
  {
    var different := t.bound.None? || t.bound.value != p.index;
    t.(threshold := p.threshold, bound := Some(p.index), newPatch := t.newPatch || different)
  }

  datatype ThresholdStep = ThresholdStep(tool: ThresholdTool, edit: Edit)

  /** The `threshold` setter. Values outside [0, 1] change nothing. A valid
      value is stored; unless the patch was just bound, it is also written
      to the patch and, when undos are unlocked, a copy of the patch *as
      written* is pushed under `threshold_adjust`. */
  function SetToolThreshold(t: ThresholdTool, e: Edit, v: real): (r: ThresholdStep)
    ensures !InRange(v) ==> r == ThresholdStep(t, e)
    ensures InRange(v) ==> r.tool == t.(threshold := v, newPatch := false)
    ensures InRange(v) && t.newPatch ==> r.edit == e
    ensures InRange(v) && !t.newPatch ==>
      && r.edit.patch == e.patch.(threshold := v, mask := r.edit.patch.mask)
      && (forall c :: c in r.edit.patch.mask <==> e.patch.InBounds(c) && e.patch.Pixel(c) > v)
    ensures InRange(v) && !t.newPatch && t.canUndo ==>
      r.edit.undo == AddToUndoStack(e.undo, r.edit.patch, THRESHOLD_ADJUST)
    ensures InRange(v) && !t.newPatch && !t.canUndo ==> r.edit.undo == e.undo
  {
    if !InRange(v) then ThresholdStep(t, e)
    else if t.newPatch then ThresholdStep(t.(threshold := v, newPatch := false), e)
    else
      var p := SetThreshold(e.patch, v);
      var u := if t.canUndo then AddToUndoStack(e.undo, p, THRESHOLD_ADJUST) else e.undo;
      ThresholdStep(t.(threshold := v, newPatch := false), Edit(p, u))
  }

  /** `_adjust_threshold`: inverted, so that scrolling down grows the
      foreground: a negative direction raises the threshold by the
      increment, any other direction lowers it. */
  function AdjustThreshold(t: ThresholdTool, e: Edit, direction: int): (r: ThresholdStep)
    ensures direction < 0 && InRange(t.threshold + t.increment) ==> r.tool.threshold == t.threshold + t.increment
    ensures direction >= 0 && InRange(t.threshold - t.increment) ==> r.tool.threshold == t.threshold - t.increment
    ensures direction < 0 && !InRange(t.threshold + t.increment) ==> r == ThresholdStep(t, e)
    ensures direction >= 0 && !InRange(t.threshold - t.increment) ==> r == ThresholdStep(t, e)
  {
    if direction < 0 then SetToolThreshold(t, e, t.threshold + t.increment)
    else SetToolThreshold(t, e, t.threshold - t.increment)
  }

  /** Because the snapshot is taken after the write, undoing the first
      threshold change of a series hands back the patch as it already is:
      the original threshold and mask are not recoverable. */
  lemma ThresholdUndoReturnsCurrentPatch(t: ThresholdTool, e: Edit, v: real)
    requires InRange(v) && !t.newPatch && t.canUndo
    requires !Coalesces(e.undo.undoStack, THRESHOLD_ADJUST) && |e.undo.undoStack| < MAX_SIZE
    ensures var r := SetToolThreshold(t, e, v);
      Undo(r.edit.undo) == Popped(Some(Entry(r.edit.patch, THRESHOLD_ADJUST)), e.undo)
  {
    var r := SetToolThreshold(t, e, v);
    PushThenUndo(e.undo, r.edit.patch, THRESHOLD_ADJUST);
  }

  /** A second threshold change right after a first leaves the undo stack as
      the first left it: a series of changes is one undo entry holding the
      patch after the first change. */
  lemma ThresholdSeriesIsOneEntry(t: ThresholdTool, e: Edit, v1: real, v2: real)
    requires InRange(v1) && !t.newPatch && t.canUndo
    requires |e.undo.undoStack| < MAX_SIZE
    ensures var r1 := SetToolThreshold(t, e, v1);
      SetToolThreshold(r1.tool, r1.edit, v2).edit.undo == r1.edit.undo
  {
    var r1 := SetToolThreshold(t, e, v1);
    ThresholdAdjustIsAdjust();
    assert Coalesces(r1.edit.undo.undoStack, THRESHOLD_ADJUST);
  }

  // -------------------------------------------------------------------- brush

  const INITIAL_BRUSH_RADIUS: int := 15

  datatype BrushTool = BrushTool(radius: int)

  /** The `brush_radius` setter: negative radii are ignored. */
  function SetRadius(b: BrushTool, v: int): (r: BrushTool)
    ensures v >= 0 ==> r.radius == v
    ensures v < 0 ==> r == b
  {
    if v >= 0 then BrushTool(v) else b
  }

  /** `on_adjust`: one pixel larger for a positive direction, one smaller
      otherwise, never below zero. */
  function AdjustBrush(b: BrushTool, direction: int): (r: BrushTool)
    ensures b.radius >= 0 ==> r.radius >= 0
    ensures direction > 0 && b.radius >= -1 ==> r.radius == b.radius + 1
    ensures direction <= 0 && b.radius >= 1 ==> r.radius == b.radius - 1
    ensures direction <= 0 && b.radius == 0 ==> r == b
  {
    if direction > 0 then SetRadius(b, b.radius + 1) else SetRadius(b, b.radius - 1)
  }

  /** Growing the brush and shrinking it again restores its radius. */
  lemma AdjustBrushRoundTrip(b: BrushTool)
    requires b.radius >= 0
    ensures AdjustBrush(AdjustBrush(b, 1), -1) == b
  {
  }

  function ClickTag(kind: Polarity): string {
    match kind
    case Add => "add_region"
    case Remove => "remove_region"
  }

  /** `"<kind>_adjust"`, followed by `"_" + str(drag_id)` when a drag id is
      given. */
  function DragTag(kind: Polarity, dragId: Option<nat>): (r: string)
    ensures Contains(r, ADJUST)
    ensures DragBase(kind) <= r
    ensures dragId.None? <==> |r| == |DragBase(kind)|
    ensures dragId.Some? ==>
      && |r| > |DragBase(kind)| + 1 && r[|DragBase(kind)|] == '_'
      && IsDigits(r[|DragBase(kind)| + 1..])
      && DecimalValue(r[|DragBase(kind)| + 1..]) == dragId.value
  {
    var base := DragBase(kind);
    var r := base + (match dragId case Some(id) => "_" + NatToString(id) case None => "");
    assert OccursAt(r, ADJUST, |base| - 6);
    assert dragId.Some? ==> r[|base| + 1..] == NatToString(dragId.value);
    r
  }

  /** The tag of a drag without an id: `"<kind>_adjust"`. */
  function DragBase(kind: Polarity): string {
    match kind
    case Add => "add_region_adjust"
    case Remove => "remove_region_adjust"
  }

  /** Drag tags tell strokes apart: two drags share a tag exactly when they
      have the same polarity and the same drag id. */
  lemma {:induction false} DragTagInjective(k1: Polarity, a: Option<nat>, k2: Polarity, b: Option<nat>)
    ensures DragTag(k1, a) == DragTag(k2, b) <==> k1 == k2 && a == b
  {
    var t1, t2 := DragTag(k1, a), DragTag(k2, b);
    if t1 == t2 {
      var n := |DragBase(k1)|;
      if a.Some? && b.Some? {
        assert t1[n + 1..] == t2[n + 1..];
      }
    }
  }

  /** A drag with a new id, on top of the entry another stroke left, is a
      new stroke: it pushes an entry of its own rather than being absorbed. */
  lemma NewStrokePushesEntry(kind: Polarity, b: BrushTool, e: Edit, position: Cell, previous: nat, id: nat, k: Kernels)
    requires |e.undo.undoStack| > 0
    requires e.undo.undoStack[|e.undo.undoStack| - 1].tag == DragTag(kind, Some(previous))
    requires id != previous
    ensures var r := BrushDrag(kind, b, e, position, Some(id), k);
      && r.undo.undoStack == PushEvicting(e.undo.undoStack, Entry(e.patch, DragTag(kind, Some(id))))
      && (|e.undo.undoStack| < MAX_SIZE ==> |r.undo.undoStack| == |e.undo.undoStack| + 1)
  {
    DragTagInjective(kind, Some(previous), kind, Some(id));
  }

  /** The patch after one dab of the brush at `position`. */
  function Paint(kind: Polarity, p: Patch, position: Cell, radius: int, k: Kernels): Patch {
    match kind
    case Add => PatchModel.AddRegion(p, position, radius, k)
    case Remove => PatchModel.RemoveRegion(p, position, radius, k)
  }

  /** The tags `on_click` and no-root push are not adjustment tags, so they
      never coalesce with the entry below them. */
  lemma EditTagsNeverCoalesce<T>(stack: seq<Entry<T>>)
    ensures !Coalesces(stack, ClickTag(Add)) && !Coalesces(stack, ClickTag(Remove))
    ensures !Coalesces(stack, FloodTag(Add)) && !Coalesces(stack, FloodTag(Remove))
    ensures !Coalesces(stack, NO_ROOT)
  {
    var a := ADJUST;
    assert a[2] == 'j';
    NotContainsByMissingChar(ClickTag(Add), ADJUST, 2);
    NotContainsByMissingChar(ClickTag(Remove), ADJUST, 2);
    NotContainsByMissingChar(FloodTag(Add), ADJUST, 2);
    NotContainsByMissingChar(FloodTag(Remove), ADJUST, 2);
    NotContainsByMissingChar(NO_ROOT, ADJUST, 2);
  }

  /** `on_click`: push a copy of the patch before the edit, then paint the
      clipped disk. */
  function BrushClick(kind: Polarity, b: BrushTool, e: Edit, position: Cell, k: Kernels): (r: Edit)
    ensures r.undo.undoStack == PushEvicting(e.undo.undoStack, Entry(e.patch, ClickTag(kind)))
    ensures r.undo.redoStack == e.undo.redoStack
    ensures r.patch == Paint(kind, e.patch, position, b.radius, k)
  {
    EditTagsNeverCoalesce(e.undo.undoStack);
    Edit(Paint(kind, e.patch, position, b.radius, k), AddToUndoStack(e.undo, e.patch, ClickTag(kind)))
  }

  /** `on_drag`: push a copy under the stroke's adjustment tag (absorbed
      when the stroke already has an entry on top), then paint. */
  function BrushDrag(kind: Polarity, b: BrushTool, e: Edit, position: Cell, dragId: Option<nat>, k: Kernels): (r: Edit)
    ensures Coalesces(e.undo.undoStack, DragTag(kind, dragId)) && |e.undo.undoStack| <= MAX_SIZE ==>
      r.undo == e.undo
    ensures !Coalesces(e.undo.undoStack, DragTag(kind, dragId)) ==>
      r.undo.undoStack == PushEvicting(e.undo.undoStack, Entry(e.patch, DragTag(kind, dragId)))
    ensures r.undo.redoStack == e.undo.redoStack
    ensures r.patch == Paint(kind, e.patch, position, b.radius, k)
  {
    Edit(Paint(kind, e.patch, position, b.radius, k), AddToUndoStack(e.undo, e.patch, DragTag(kind, dragId)))
  }

  /** A click followed by an undo hands back the patch before the click and
      the undo manager as it was. */
  lemma BrushClickThenUndo(kind: Polarity, b: BrushTool, e: Edit, position: Cell, k: Kernels)
    requires |e.undo.undoStack| < MAX_SIZE
    ensures Undo(BrushClick(kind, b, e, position, k).undo) == Popped(Some(Entry(e.patch, ClickTag(kind))), e.undo)
  {
    EditTagsNeverCoalesce(e.undo.undoStack);
    PushThenUndo(e.undo, e.patch, ClickTag(kind));
  }

  /** Two drag events of one stroke leave one undo entry, holding the patch
      from before the stroke, so one undo takes back the whole stroke. */
  lemma DragStrokeThenUndo(kind: Polarity, b: BrushTool, e: Edit, p1: Cell, p2: Cell, dragId: Option<nat>, k: Kernels)
    requires |e.undo.undoStack| < MAX_SIZE && !Coalesces(e.undo.undoStack, DragTag(kind, dragId))
    ensures var e1 := BrushDrag(kind, b, e, p1, dragId, k);
      var e2 := BrushDrag(kind, b, e1, p2, dragId, k);
      && e2.undo == e1.undo
      && Undo(e2.undo) == Popped(Some(Entry(e.patch, DragTag(kind, dragId))), e.undo)
  {
    var e1 := BrushDrag(kind, b, e, p1, dragId, k);
    assert Coalesces(e1.undo.undoStack, DragTag(kind, dragId));
    PushThenUndo(e.undo, e.patch, DragTag(kind, dragId));
  }

  // -------------------------------------------------------------------- flood

  const INITIAL_TOLERANCE: real := 0.05
  const TOLERANCE_INCREMENT: real := 0.01

  /** `seed` is the tool's `_prev_position`: the last click since binding. */
  datatype FloodTool = FloodTool(tolerance: real, increment: real, seed: Option<Cell>)

  function NewFloodTool(): (r: FloodTool)
    ensures r.tolerance == INITIAL_TOLERANCE && r.increment == TOLERANCE_INCREMENT && r.seed.None?
  {
    FloodTool(INITIAL_TOLERANCE, TOLERANCE_INCREMENT, None)
  }

  function FloodTag(kind: Polarity): string {
    match kind
    case Add => "flood_add"
    case Remove => "flood_remove"
  }

  /** Tolerances the setter accepts: non-negative for the add tool, strictly
      positive for the remove tool. */
  predicate AcceptsTolerance(kind: Polarity, v: real): (r: bool)
    ensures v > 0.0 ==> r
    ensures v < 0.0 ==> !r
    ensures v == 0.0 ==> (r <==> kind == Add)
  {
    match kind
    case Add => v >= 0.0
    case Remove => v > 0.0
  }

  /** The patch after one flood edit. */
  function Flood(kind: Polarity, p: Patch, seed: Cell, tolerance: real, k: Kernels): Patch {
    match kind
    case Add => FloodAddRegion(p, seed, tolerance, k)
    case Remove => FloodRemoveRegion(p, seed, tolerance, k)
  }

  /** The seed the patch remembers for this kind of flood. */
  function PatchSeed(kind: Polarity, p: Patch): Option<Cell> {
    match kind
    case Add => p.floodAddSeed
    case Remove => p.floodRemoveSeed
  }

  /** The `patch` setter: binding forgets the last click. */
  function BindFlood(f: FloodTool): (r: FloodTool)
    ensures r.seed.None? && r.tolerance == f.tolerance && r.increment == f.increment
  {
    f.(seed := None)
  }

  /** `_add_region` / `_remove_region`: re-run the flood at the last click;
      without one, nothing happens. The undo manager is never touched. */
  function Reflood(kind: Polarity, f: FloodTool, e: Edit, k: Kernels): (r: Edit)
    ensures r.undo == e.undo
    ensures f.seed.None? ==> r == e
    ensures f.seed.Some? ==> r.patch == Flood(kind, e.patch, f.seed.value, f.tolerance, k)
    ensures f.seed.Some? ==> PatchSeed(kind, r.patch) == f.seed
  {
    match f.seed
    case None => e
    case Some(s) => e.(patch := Flood(kind, e.patch, s, f.tolerance, k))
  }

  datatype FloodStep = FloodStep(tool: FloodTool, edit: Edit)

  /** The `tolerance` setter: a rejected value changes nothing; an accepted
      one is stored and the flood re-run at the last click. */
  function SetTolerance(kind: Polarity, f: FloodTool, e: Edit, v: real, k: Kernels): (r: FloodStep)
    ensures !AcceptsTolerance(kind, v) ==> r == FloodStep(f, e)
    ensures AcceptsTolerance(kind, v) ==> r.tool == f.(tolerance := v)
    ensures AcceptsTolerance(kind, v) ==> r.edit == Reflood(kind, f.(tolerance := v), e, k)
  {
    if AcceptsTolerance(kind, v) then
      var f' := f.(tolerance := v);
      FloodStep(f', Reflood(kind, f', e, k))
    else FloodStep(f, e)
  }

  /** `on_click`: remember the position, push a copy of the patch before the
      edit, then flood from the position. */
  function FloodClick(kind: Polarity, f: FloodTool, e: Edit, position: Cell, k: Kernels): (r: FloodStep)
    ensures r.tool == f.(seed := Some(position))
    ensures r.edit.undo.undoStack == PushEvicting(e.undo.undoStack, Entry(e.patch, FloodTag(kind)))
    ensures r.edit.undo.redoStack == e.undo.redoStack
    ensures r.edit.patch == Flood(kind, e.patch, position, f.tolerance, k)
    ensures PatchSeed(kind, r.edit.patch) == r.tool.seed
  {
    EditTagsNeverCoalesce(e.undo.undoStack);
    FloodStep(f.(seed := Some(position)),
              Edit(Flood(kind, e.patch, position, f.tolerance, k), AddToUndoStack(e.undo, e.patch, FloodTag(kind))))
  }

  /** `on_adjust`: step the tolerance through the setter, then re-run the
      flood once more; no undo entry is pushed. */
  function FloodAdjust(kind: Polarity, f: FloodTool, e: Edit, direction: int, k: Kernels): (r: FloodStep)
    ensures r.edit.undo == e.undo
    ensures r.tool.seed == f.seed && r.tool.increment == f.increment
    ensures f.seed.None? ==> r.edit == e
    ensures f.seed.Some? ==> PatchSeed(kind, r.edit.patch) == f.seed
    ensures var v := if direction > 0 then f.tolerance + f.increment else f.tolerance - f.increment;
      r.tool.tolerance == (if AcceptsTolerance(kind, v) then v else f.tolerance)
    ensures f.seed.Some? ==> r.edit.patch == Flood(kind, e.patch, f.seed.value, r.tool.tolerance, k)
  {
    var v := if direction > 0 then f.tolerance + f.increment else f.tolerance - f.increment;
    var s := SetTolerance(kind, f, e, v, k);
    assert f.seed.Some? && AcceptsTolerance(kind, v) ==>
      Flood(kind, Flood(kind, e.patch, f.seed.value, v, k), f.seed.value, v, k) == Flood(kind, e.patch, f.seed.value, v, k)
    by {
      if f.seed.Some? && AcceptsTolerance(kind, v) {
        FloodTwiceIsOnce(kind, e.patch, f.seed.value, v, v, k);
      }
    }
    FloodStep(s.tool, Reflood(kind, s.tool, s.edit, k))
  }

  /** Flooding twice from one seed is flooding once with the later
      tolerance, for either polarity. */
  lemma FloodTwiceIsOnce(kind: Polarity, p: Patch, seed: Cell, t1: real, t2: real, k: Kernels)
    ensures Flood(kind, Flood(kind, p, seed, t1, k), seed, t2, k) == Flood(kind, p, seed, t2, k)
  {
    match kind
    case Add => FloodAddNotCumulative(p, seed, t1, t2, k);
    case Remove => FloodRemoveNotCumulative(p, seed, t1, t2, k);
  }

  /** After a click, an adjustment replaces the fill rather than adding to
      it: the patch is what one flood from the click at the new tolerance
      gives, with the tolerance moved by one increment when the setter
      accepts it. */
  lemma FloodAdjustAfterClick(kind: Polarity, f: FloodTool, e: Edit, position: Cell, direction: int, k: Kernels)
    ensures var c := FloodClick(kind, f, e, position, k);
      var v := if direction > 0 then f.tolerance + f.increment else f.tolerance - f.increment;
      var t := if AcceptsTolerance(kind, v) then v else f.tolerance;
      var a := FloodAdjust(kind, c.tool, c.edit, direction, k);
      && a.tool.tolerance == t
      && a.edit.patch == Flood(kind, e.patch, position, t, k)
      && a.edit.undo == c.edit.undo
  {
    var c := FloodClick(kind, f, e, position, k);
    var v := if direction > 0 then f.tolerance + f.increment else f.tolerance - f.increment;
    var s := SetTolerance(kind, c.tool, c.edit, v, k);
    if AcceptsTolerance(kind, v) {
      FloodTwiceIsOnce(kind, e.patch, position, f.tolerance, v, k);
      FloodTwiceIsOnce(kind, e.patch, position, v, v, k);
    } else {
      FloodTwiceIsOnce(kind, e.patch, position, f.tolerance, f.tolerance, k);
    }
  }

  /** However often the tolerance is adjusted after a click, one undo hands
      back the patch from before the click. */
  lemma FloodClickAdjustThenUndo(kind: Polarity, f: FloodTool, e: Edit, position: Cell, d1: int, d2: int, k: Kernels)
    requires |e.undo.undoStack| < MAX_SIZE
    ensures var c := FloodClick(kind, f, e, position, k);
      var a1 := FloodAdjust(kind, c.tool, c.edit, d1, k);
      var a2 := FloodAdjust(kind, a1.tool, a1.edit, d2, k);
      Undo(a2.edit.undo) == Popped(Some(Entry(e.patch, FloodTag(kind))), e.undo)
  {
    EditTagsNeverCoalesce(e.undo.undoStack);
    PushThenUndo(e.undo, e.patch, FloodTag(kind));
  }

  // ----------------------------------------------------------- navigation

  /** `_next_patch`: the following list index, or `None` for the
      `(None, -1)` pair past the last patch. */
  function NextIndex(current: nat, count: nat): (r: Option<nat>)
    ensures r.Some? <==> current + 1 < count
    ensures r.Some? ==> r.value == current + 1
  {
    if current + 1 < count then Some(current + 1) else None
  }

  /** `_prev_patch`: the preceding list index, or `None` before the first. */
  function PrevIndex(current: int, count: nat): (r: Option<nat>)
    ensures r.Some? <==> current - 1 >= 0 && current - 1 < count
    ensures r.Some? ==> r.value == current - 1
  {
    if current - 1 >= 0 && current - 1 < count then Some(current - 1) else None
  }

  /** Stepping forward and back (or back and forward) inside the list
      returns to the starting index. */
  lemma NextPrevRoundTrip(current: nat, count: nat)
    requires current < count
    ensures NextIndex(current, count).Some? ==> PrevIndex(NextIndex(current, count).value, count) == Some(current)
    ensures PrevIndex(current, count).Some? ==> NextIndex(PrevIndex(current, count).value, count) == Some(current)
    ensures NextIndex(current, count).None? <==> current == count - 1
    ensures PrevIndex(current, count).None? <==> current == 0
  {
  }

  const NO_ROOT: string := "no_root"

  datatype NoRootStep = NoRootStep(edit: Edit, target: Option<nat>)

  /** `on_activate` of the no-root tool: push a copy of the patch, clear its
      mask, and pick the next patch for the controller to move to. */
  function NoRootActivate(e: Edit, current: nat, count: nat): (r: NoRootStep)
    ensures r.edit.undo.undoStack == PushEvicting(e.undo.undoStack, Entry(e.patch, NO_ROOT))
    ensures r.edit.undo.redoStack == e.undo.redoStack
    ensures r.edit.patch == ClearMask(e.patch)
    ensures r.target == NextIndex(current, count)
  {
    EditTagsNeverCoalesce(e.undo.undoStack);
    NoRootStep(Edit(ClearMask(e.patch), AddToUndoStack(e.undo, e.patch, NO_ROOT)), NextIndex(current, count))
  }
}
