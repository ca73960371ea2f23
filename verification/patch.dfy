/** One tile of the image: its pixels, its binary mask and threshold, the
    bookkeeping the flood tools use to re-run a fill at a new tolerance, and
    the undo history saved into it when the user navigates away. */
module PatchModel {
  import opened Common
  import opened PixelMath
  import opened UndoManagement

  /** `mask` is the set of foreground cells. `oldMask` is the single
      `_old_mask` field both flood operations snapshot into and restore
      from; the two seeds are `_old_flood_add_position` and
      `_old_flood_remove_position`. */
  datatype Patch = Patch(
    index: GridIndex,
    data: seq<seq<real>>,
    rows: nat,
    cols: nat,
    mask: set<Cell>,
    threshold: real,
    oldMask: set<Cell>,
    floodAddSeed: Option<Cell>,
    floodAddTolerance: real,
    floodRemoveSeed: Option<Cell>,
    floodRemoveTolerance: real,
    history: Option<UndoManager<Patch>>)
  {
    predicate InBounds(c: Cell) {
      0 <= c.row < rows && 0 <= c.col < cols
    }

    /** The pixel data is a `rows` by `cols` rectangle. */
    ghost predicate Shaped() {
      WellShaped(data, rows, cols)
    }

    /** Shaped, and both masks lie inside the patch. */
    ghost predicate Valid() {
      Shaped() && mask <= Cells(rows, cols) && oldMask <= Cells(rows, cols)
    }

    /** The intensity at an in-bounds cell. Every patch the image builds is
        shaped; should a row be short, the missing pixels read as 0. */
    function Pixel(c: Cell): real
      requires InBounds(c)
    {
      if c.row < |data| && c.col < |data[c.row]| then data[c.row][c.col] else 0.0
    }
  }

  /** The tolerance both flood seeds start with. */
  const INITIAL_FLOOD_TOLERANCE: real := 100.0

  /** Thresholds outside [0, 1] are rejected. */
  predicate InRange(t: real) {
    0.0 <= t <= 1.0
  }

  /** The cells of `p` brighter than `t` (`patch > value`). */
  function ThresholdMask(p: Patch, t: real): (r: set<Cell>)
    ensures forall c :: c in r <==> p.InBounds(c) && p.Pixel(c) > t
  {
    set i, j | 0 <= i < p.rows && 0 <= j < p.cols && p.Pixel(Cell(i, j)) > t :: Cell(i, j)
  }

  /** `_apply_threshold(value)`: `ValueError` outside [0, 1], otherwise the
      mask becomes the thresholded pixels; the threshold field is left alone. */
  function ApplyThreshold(p: Patch, t: real): (r: Result<Patch>)
    ensures r.ValueError? <==> !InRange(t)
    ensures r.Ok? ==> r.value == p.(mask := r.value.mask)
    ensures r.Ok? ==> forall c :: c in r.value.mask <==> p.InBounds(c) && p.Pixel(c) > t
  {
    if t > 1.0 || t < 0.0 then ValueError
    else Ok(p.(mask := ThresholdMask(p, t)))
  }

  /** The `threshold` property setter: out-of-range values are ignored;
      otherwise the threshold is stored and the mask recomputed, discarding
      any manual edits. */
  function SetThreshold(p: Patch, t: real): (r: Patch)
    ensures !InRange(t) ==> r == p
    ensures InRange(t) ==> r == p.(threshold := t, mask := r.mask)
    ensures InRange(t) ==> forall c :: c in r.mask <==> p.InBounds(c) && p.Pixel(c) > t
  {
    if InRange(t) then ApplyThreshold(p.(threshold := t), t).value else p
  }

  /** Setting the same threshold twice gives what setting it once gives. */
  lemma SetThresholdIdempotent(p: Patch, t: real)
    ensures SetThreshold(SetThreshold(p, t), t) == SetThreshold(p, t)
  {
    var once := SetThreshold(p, t);
    if InRange(t) {
      assert SetThreshold(once, t).mask == once.mask;
    }
  }

  /** `Patch(patch, patch_index)`: threshold 1 and an empty mask, then the
      setter is given Otsu's threshold (or 1 when Otsu raises). An Otsu value
      outside [0, 1] is ignored by the setter. */
  function NewPatch(index: GridIndex, data: seq<seq<real>>, rows: nat, cols: nat, k: Kernels): (r: Patch)
    requires WellShaped(data, rows, cols)
    ensures r.Valid() && r.index == index && r.data == data
    ensures InRange(r.threshold)
    ensures r.floodAddSeed.None? && r.floodRemoveSeed.None? && r.history.None?
    ensures r.mask == {} || r.mask == ThresholdMask(r, r.threshold)
    ensures k.otsu(data).Some? && InRange(k.otsu(data).value) ==>
      r.threshold == k.otsu(data).value && r.mask == ThresholdMask(r, r.threshold)
  {
    var blank := Patch(index, data, rows, cols, {}, 1.0, {}, None, INITIAL_FLOOD_TOLERANCE,
                       None, INITIAL_FLOOD_TOLERANCE, None);
    match k.otsu(data)
    case Some(t) => SetThreshold(blank, t)
    case None => SetThreshold(blank, 1.0)
  }

  /** `_get_circle(position, radius)`: the rasterised disk, keeping only the
      coordinates that fall inside the patch. */
  function Circle(p: Patch, centre: Cell, radius: int, k: Kernels): (r: set<Cell>)
    ensures r <= Cells(p.rows, p.cols)
    ensures forall c :: c in r <==> c in k.disk(centre, radius) && p.InBounds(c)
  {
    set c | c in k.disk(centre, radius) && p.InBounds(c)
  }

  /** `add_region(position, radius)`: the clipped disk becomes foreground and
      no other cell changes. */
  function AddRegion(p: Patch, centre: Cell, radius: int, k: Kernels): (r: Patch)
    ensures r == p.(mask := r.mask)
    ensures forall c :: c in Circle(p, centre, radius, k) ==> c in r.mask
    ensures forall c :: c !in Circle(p, centre, radius, k) ==> (c in r.mask <==> c in p.mask)
  {
    p.(mask := p.mask + Circle(p, centre, radius, k))
  }

  /** `remove_region(position, radius)`: the clipped disk becomes background
      and no other cell changes. */
  function RemoveRegion(p: Patch, centre: Cell, radius: int, k: Kernels): (r: Patch)
    ensures r == p.(mask := r.mask)
    ensures forall c :: c in Circle(p, centre, radius, k) ==> c !in r.mask
    ensures forall c :: c !in Circle(p, centre, radius, k) ==> (c in r.mask <==> c in p.mask)
  {
    p.(mask := p.mask - Circle(p, centre, radius, k))
  }

  /** Brush edits keep the masks inside the patch. */
  lemma BrushKeepsValid(p: Patch, centre: Cell, radius: int, k: Kernels)
    requires p.Valid()
    ensures AddRegion(p, centre, radius, k).Valid()
    ensures RemoveRegion(p, centre, radius, k).Valid()
  {
  }

  /** Painting a disk and erasing the same disk leaves exactly the cells of
      the original mask outside the disk; on an empty mask that is nothing. */
  lemma AddThenRemoveRegion(p: Patch, centre: Cell, radius: int, k: Kernels)
    ensures RemoveRegion(AddRegion(p, centre, radius, k), centre, radius, k).mask
            == p.mask - Circle(p, centre, radius, k)
    ensures p.mask == {} ==> RemoveRegion(AddRegion(p, centre, radius, k), centre, radius, k).mask == {}
  {
    var q := AddRegion(p, centre, radius, k);
    assert Circle(q, centre, radius, k) == Circle(p, centre, radius, k);
  }

  /** Painting is idempotent: a second identical stroke changes nothing. */
  lemma AddRegionIdempotent(p: Patch, centre: Cell, radius: int, k: Kernels)
    ensures AddRegion(AddRegion(p, centre, radius, k), centre, radius, k) == AddRegion(p, centre, radius, k)
  {
    var q := AddRegion(p, centre, radius, k);
    assert Circle(q, centre, radius, k) == Circle(p, centre, radius, k);
  }

  /** `clear_mask()`: the mask is zeroed and then the threshold is set to 1,
      which recomputes the mask as the pixels brighter than 1. */
  function ClearMask(p: Patch): (r: Patch)
    ensures r.threshold == 1.0
    ensures r == p.(threshold := 1.0, mask := r.mask)
    ensures forall c :: c in r.mask <==> p.InBounds(c) && p.Pixel(c) > 1.0
    ensures (forall c :: p.InBounds(c) ==> p.Pixel(c) <= 1.0) ==> r.mask == {}
  {
    SetThreshold(p.(mask := {}), 1.0)
  }

  /** The flood routine's cells, as a boolean array shaped like the patch. */
  function FloodCells(p: Patch, seed: Cell, tolerance: real, k: Kernels): (r: set<Cell>)
    ensures r <= Cells(p.rows, p.cols)
    ensures forall c :: c in r <==> c in k.flood(p.data, seed, tolerance) && p.InBounds(c)
  {
    set c | c in k.flood(p.data, seed, tolerance) && p.InBounds(c)
  }

  /** The mask a flood edit starts from: the saved mask when the seed is the
      one the previous add (resp. remove) used, otherwise the current mask. */
  function FloodBase(p: Patch, seed: Cell, previous: Option<Cell>): set<Cell> {
    if previous == Some(seed) then p.oldMask else p.mask
  }

  /** `flood_add_region(position, tolerance)`: a repeated seed restores the
      saved mask first, a new seed snapshots the current one; the flooded
      cells are then added. */
  function FloodAddRegion(p: Patch, seed: Cell, tolerance: real, k: Kernels): (r: Patch)
    ensures r.mask == r.oldMask + FloodCells(p, seed, tolerance, k)
    ensures p.floodAddSeed == Some(seed) ==> r.oldMask == p.oldMask
    ensures p.floodAddSeed != Some(seed) ==> r.oldMask == p.mask
    ensures r == p.(mask := r.mask, oldMask := r.oldMask, floodAddSeed := Some(seed),
                    floodAddTolerance := tolerance)
  {
    var base := FloodBase(p, seed, p.floodAddSeed);
    p.(oldMask := base, mask := base + FloodCells(p, seed, tolerance, k),
       floodAddSeed := Some(seed), floodAddTolerance := tolerance)
  }

  /** `flood_remove_region(position, tolerance)`: as the add, but the flooded
      cells are cleared. It shares `oldMask` with the add. */
  function FloodRemoveRegion(p: Patch, seed: Cell, tolerance: real, k: Kernels): (r: Patch)
    ensures r.mask == r.oldMask - FloodCells(p, seed, tolerance, k)
    ensures p.floodRemoveSeed == Some(seed) ==> r.oldMask == p.oldMask
    ensures p.floodRemoveSeed != Some(seed) ==> r.oldMask == p.mask
    ensures r == p.(mask := r.mask, oldMask := r.oldMask, floodRemoveSeed := Some(seed),
                    floodRemoveTolerance := tolerance)
  {
    var base := FloodBase(p, seed, p.floodRemoveSeed);
    p.(oldMask := base, mask := base - FloodCells(p, seed, tolerance, k),
       floodRemoveSeed := Some(seed), floodRemoveTolerance := tolerance)
  }

  /** Flood edits keep the masks inside the patch. */
  lemma FloodKeepsValid(p: Patch, seed: Cell, tolerance: real, k: Kernels)
    requires p.Valid()
    ensures FloodAddRegion(p, seed, tolerance, k).Valid()
    ensures FloodRemoveRegion(p, seed, tolerance, k).Valid()
  {
  }

  /** Re-running the add at the same seed replaces the previous fill rather
      than accumulating: only the last tolerance counts. */
  lemma FloodAddNotCumulative(p: Patch, seed: Cell, t1: real, t2: real, k: Kernels)
    ensures FloodAddRegion(FloodAddRegion(p, seed, t1, k), seed, t2, k) == FloodAddRegion(p, seed, t2, k)
  {
    var q := FloodAddRegion(p, seed, t1, k);
    assert FloodCells(q, seed, t2, k) == FloodCells(p, seed, t2, k);
  }

  /** The same for removal. */
  lemma FloodRemoveNotCumulative(p: Patch, seed: Cell, t1: real, t2: real, k: Kernels)
    ensures FloodRemoveRegion(FloodRemoveRegion(p, seed, t1, k), seed, t2, k)
            == FloodRemoveRegion(p, seed, t2, k)
  {
    var q := FloodRemoveRegion(p, seed, t1, k);
    assert FloodCells(q, seed, t2, k) == FloodCells(p, seed, t2, k);
  }

  /** Because `oldMask` is shared and the add seed is remembered across other
      edits, a flood remove at a fresh seed followed by a flood add at the
      earlier add seed restores the mask the first add produced: the removal
      is lost. */
  lemma SharedOldMaskUndoesRemoval(p: Patch, a: Cell, q: Cell, ta: real, tq: real, k: Kernels)
    requires FloodAddRegion(p, a, ta, k).floodRemoveSeed != Some(q)
    ensures var p1 := FloodAddRegion(p, a, ta, k);
            FloodAddRegion(FloodRemoveRegion(p1, q, tq, k), a, ta, k).mask == p1.mask
  {
    var p1 := FloodAddRegion(p, a, ta, k);
    var p2 := FloodRemoveRegion(p1, q, tq, k);
    assert FloodCells(p2, a, ta, k) == FloodCells(p, a, ta, k);
  }

  /** Likewise a brush stroke made after a flood add is discarded when the
      user clicks the flood tool on the same seed again. */
  lemma ReclickDiscardsBrushStroke(p: Patch, a: Cell, t: real, centre: Cell, radius: int, k: Kernels)
    ensures var p1 := FloodAddRegion(p, a, t, k);
            FloodAddRegion(AddRegion(p1, centre, radius, k), a, t, k).mask == p1.mask
  {
    var p1 := FloodAddRegion(p, a, t, k);
    var p2 := AddRegion(p1, centre, radius, k);
    assert FloodCells(p2, a, t, k) == FloodCells(p, a, t, k);
  }
}
