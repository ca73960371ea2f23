/** The controller's index arithmetic: patch-relative positions to image
    positions, the window of neighbouring patches drawn around the current
    one, and the file name a mask is saved under. */
module Geometry {
  import opened Common
  import opened PatchModel
  import opened ImageModel
  import opened Control

  // ------------------------------------------------------ patch to image

  /** `_convert_patch_to_image_pos`: offset a position inside the current
      patch by the patch's grid position times the block size. */
  function ConvertPatchToImagePos(c: Controller, pos: Cell): (r: Cell)
    requires Ready(c)
    ensures c.image.value.TilesShaped() ==> r == Placed(CurrentPatch(c), pos)
  {
    var img := c.image.value;
    var g := CurrentPatch(c).index;
    Cell(img.blockRows * g.row + pos.row, img.blockCols * g.col + pos.col)
  }

  /** A position inside the current patch, converted to image coordinates,
      is mapped by `get_patch_from_coords` back to the current patch, at the
      same offset. */
  lemma ConvertThenLocate(c: Controller, pos: Cell)
    requires Ready(c)
    requires c.image.value.Valid() && c.image.value.RowMajor() && c.image.value.TilesShaped()
    requires 0 <= pos.row < c.image.value.blockRows && 0 <= pos.col < c.image.value.blockCols
    ensures var q := ConvertPatchToImagePos(c, pos);
      && 0 <= q.row < c.image.value.paddedRows && 0 <= q.col < c.image.value.paddedCols
      && GetPatchFromCoords(c.image.value, q.row, q.col) == c.current
      && q.row % c.image.value.blockRows == pos.row && q.col % c.image.value.blockCols == pos.col
  {
    var img := c.image.value;
    var g := CurrentPatch(c).index;
    PlacedCellLocated(img, c.current, pos);
    IndexOfGridIndex(img, c.current);
    TileOffsetBelow(g.row, pos.row, img.blockRows, img.numPatches);
    TileOffsetBelow(g.col, pos.col, img.blockCols, img.numPatches);
  }

  // ---------------------------------------------------- neighbour window

  /** The number of integers in `[lo, hi)` that are also in `[0, n)`. */
  function Clip(lo: int, hi: int, n: nat): (r: nat)
    ensures r <= n
    ensures lo <= hi ==> r <= hi - lo
  {
    var a := if lo < 0 then 0 else lo;
    var b := if hi > n then n else hi;
    if b <= a then 0 else b - a
  }

  /** Grid cell `g` lies in the grid and within one step of `centre` in
      both directions. */
  predicate InWindow(g: GridIndex, centre: GridIndex, n: nat) {
    && g.row < n && g.col < n
    && centre.row - 1 <= g.row <= centre.row + 1
    && centre.col - 1 <= g.col <= centre.col + 1
  }

  /** Strict row-major order of grid cells. */
  predicate RowMajorBefore(a: GridIndex, b: GridIndex) {
    a.row < b.row || (a.row == b.row && a.col < b.col)
  }

  /** Every entry comes before row `i` or sits in row `i` left of column
      `j`. */
  ghost predicate Below(indices: seq<GridIndex>, i: int, j: int) {
    forall a | 0 <= a < |indices| :: indices[a].row < i || (indices[a].row == i && indices[a].col < j)
  }

  ghost predicate Sorted(indices: seq<GridIndex>) {
    forall a, b | 0 <= a < b < |indices| :: RowMajorBefore(indices[a], indices[b])
  }

  /** The inner loop of the neighbour enumeration: append the in-grid cells
      of row `i` within one column of `centre`, counting them into
      `numCols` while no earlier row has been counted. */
  method AppendRow(indices: seq<GridIndex>, centre: GridIndex, i: nat, n: nat, numRows: nat, numCols: nat)
    returns (out: seq<GridIndex>, cols: nat)
    requires i < n && centre.row - 1 <= i <= centre.row + 1
    requires Sorted(indices) && Below(indices, i, 0)
    requires numRows == 0 ==> numCols == 0
    ensures |out| == |indices| + Clip(centre.col - 1, centre.col + 2, n)
    ensures cols == if numRows == 0 then Clip(centre.col - 1, centre.col + 2, n) else numCols
    ensures forall g :: g in out <==> g in indices || (InWindow(g, centre, n) && g.row == i)
    ensures Sorted(out) && Below(out, i + 1, 0)
  {
    var startJ := centre.col - 1;
    out, cols := indices, numCols;
    var j := startJ;
    while j < startJ + 3
      invariant startJ <= j <= startJ + 3
      invariant |out| == |indices| + Clip(startJ, j, n)
      invariant cols == if numRows == 0 then Clip(startJ, j, n) else numCols
      invariant forall g :: g in out <==> g in indices || (InWindow(g, centre, n) && g.row == i && g.col < j)
      invariant Sorted(out) && Below(out, i, j)
    {
      if 0 <= j < n {
        out := out + [GridIndex(i, j)];
        if numRows == 0 {
          cols := cols + 1;
        }
      }
      j := j + 1;
    }
  }

  /** The neighbour enumeration of `_get_context_patches`: the in-grid
      cells of the 3x3 window around `centre`, row by row, with the number
      of rows that contributed and the number of cells in the first one. */
  method NeighbourIndices(centre: GridIndex, n: nat) returns (indices: seq<GridIndex>, numRows: nat, numCols: nat)
    ensures forall g :: g in indices <==> InWindow(g, centre, n)
    ensures Sorted(indices)
    ensures numRows == Clip(centre.row - 1, centre.row + 2, n)
    ensures numCols == if numRows == 0 then 0 else Clip(centre.col - 1, centre.col + 2, n)
    ensures |indices| == numRows * numCols
  {
    var startI := centre.row - 1;
    var width := Clip(centre.col - 1, centre.col + 2, n);
    indices, numRows, numCols := [], 0, 0;
    var i := startI;
    while i < startI + 3
      invariant startI <= i <= startI + 3
      invariant numRows == Clip(startI, i, n)
      invariant numCols == if numRows == 0 then 0 else width
      invariant |indices| == numRows * width
      invariant forall g :: g in indices <==> InWindow(g, centre, n) && g.row < i
      invariant Sorted(indices) && Below(indices, i, 0)
    {
      if 0 <= i < n {
        indices, numCols := AppendRow(indices, centre, i, n, numRows, numCols);
        numRows := numRows + 1;
      }
      i := i + 1;
    }
  }

  // ------------------------------------------------------------ mask name

  /** The index of the last `ch` in `s`, or -1. */
  function LastIndex(s: string, ch: char): (r: int)
    ensures -1 <= r < |s|
    ensures r >= 0 ==> s[r] == ch
    ensures forall k | r < k < |s| :: s[k] != ch
  {
    if |s| == 0 then -1
    else if s[|s| - 1] == ch then |s| - 1
    else LastIndex(s[..|s| - 1], ch)
  }

  /** `os.path.basename` (POSIX): everything after the last `/`. */
  function Basename(path: string): (r: string)
    ensures '/' !in r
    ensures |r| <= |path| && path[|path| - |r|..] == r
    ensures |r| < |path| ==> path[|path| - |r| - 1] == '/'
  {
    var slash := LastIndex(path, '/');
    var r := path[slash + 1..];
    assert |path| - |r| == slash + 1;
    assert forall k | 0 <= k < |r| :: r[k] != '/' by {
      forall k | 0 <= k < |r| ensures r[k] != '/' {
        assert r[k] == path[slash + 1 + k];
      }
    }
    r
  }

  /** `os.path.splitext` on a name without `/` (POSIX): split before the
      last `.` unless every character before it is a `.` too. */
  function SplitExt(name: string): (r: (string, string))
    ensures r.0 + r.1 == name
    ensures r.1 != [] ==> r.1[0] == '.' && '.' !in r.1[1..]
    ensures r.1 != [] <==> exists k | 0 <= k < LastIndex(name, '.') :: name[k] != '.'
  {
    var dot := LastIndex(name, '.');
    if exists k | 0 <= k < dot :: name[k] != '.' then
      assert name[..dot] + name[dot..] == name;
      (name[..dot], name[dot..])
    else (name, [])
  }

  const MASK_SUFFIX: string := "_mask.png"

  /** `_get_image_name_from_path`: a directory is refused; otherwise the
      base name loses its extension and gains `_mask.png`. Whether the path
      names a directory is asked of the file system and arrives here as
      `isDir`. */
  function MaskName(path: string, isDir: bool): (r: Result<string>)
    ensures r.ValueError? <==> isDir
    ensures r.Ok? ==> |r.value| >= |MASK_SUFFIX| && r.value[|r.value| - |MASK_SUFFIX|..] == MASK_SUFFIX
    ensures r.Ok? ==>
      var base := Basename(path);
      var stem := r.value[..|r.value| - |MASK_SUFFIX|];
      && '/' !in stem
      && stem <= base
      && (|stem| < |base| ==> base[|stem|] == '.' && '.' !in base[|stem| + 1..])
  {
    if isDir then ValueError
    else
      var parts := SplitExt(Basename(path));
      var name := parts.0 + MASK_SUFFIX;
      assert name[..|name| - |MASK_SUFFIX|] == parts.0;
      assert name[|name| - |MASK_SUFFIX|..] == MASK_SUFFIX;
      Ok(name)
  }
}
