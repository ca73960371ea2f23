/** The loaded image: padded with zeros so each side divides by the number
    of patches per row, cut into an n-by-n row-major list of patches, with
    the map from image coordinates back to a list index and the assembly of
    the whole-image mask from the patch masks. */
module ImageModel {
  import opened Common
  import opened PixelMath
  import opened PatchModel

  datatype Image = Image(
    data: seq<seq<real>>,
    rows: nat,
    cols: nat,
    numPatches: nat,
    paddedRows: nat,
    paddedCols: nat,
    blockRows: nat,
    blockCols: nat,
    patches: seq<Patch>)
  {
    /** The grid arithmetic `_create_patches` establishes. */
    predicate Valid() {
      && numPatches > 0 && blockRows > 0 && blockCols > 0
      && paddedRows == blockRows * numPatches
      && paddedCols == blockCols * numPatches
      && |patches| == numPatches * numPatches
      && rows <= paddedRows && cols <= paddedCols
    }

    ghost predicate RowMajor() {
      RowMajorLayout(patches, numPatches)
    }

    /** Every patch is a `blockRows` by `blockCols` tile with its masks inside. */
    ghost predicate TilesShaped() {
      forall k :: 0 <= k < |patches| ==>
        patches[k].rows == blockRows && patches[k].cols == blockCols && patches[k].Valid()
    }
  }

  /** List index `i * n + j` holds the patch with grid index `(i, j)`. */
  ghost predicate RowMajorLayout(patches: seq<Patch>, n: nat) {
    forall i, j :: 0 <= i < n && 0 <= j < n ==> RowMajorSlot(patches, n, i, j)
  }

  /** List index `i * n + j` exists and holds grid index `(i, j)`. */
  ghost predicate RowMajorSlot(patches: seq<Patch>, n: nat, i: nat, j: nat) {
    0 <= i * n + j < |patches| && patches[i * n + j].index == GridIndex(i, j)
  }

  /** Entry `idx` carries grid index `(idx / n, idx % n)`. */
  ghost predicate IndexedByPosition(ps: seq<Patch>, n: nat) {
    n > 0 && forall idx :: 0 <= idx < |ps| ==> ps[idx].index == GridIndex(idx / n, idx % n)
  }

  /** A list whose entry `idx` carries grid index `(idx / n, idx % n)` is
      laid out row-major. */
  lemma {:induction false} IndexedIsRowMajor(ps: seq<Patch>, n: nat)
    requires n > 0 && |ps| == n * n && IndexedByPosition(ps, n)
    ensures RowMajorLayout(ps, n)
  {
    forall i, j | 0 <= i < n && 0 <= j < n {
      RowMajorAt(ps, n, i, j);
    }
  }

  lemma RowMajorAt(ps: seq<Patch>, n: nat, i: int, j: int)
    requires n > 0 && |ps| == n * n && 0 <= i < n && 0 <= j < n && IndexedByPosition(ps, n)
    ensures RowMajorSlot(ps, n, i, j)
  {
    RowMajorEntry(i, j, n);
    var idx := i * n + j;
    assert ps[idx].index == GridIndex(idx / n, idx % n);
  }

  /** Position `i * n + j` of an `n * n` list is in range and divides back
      into `(i, j)`. */
  lemma RowMajorEntry(i: int, j: int, n: int)
    requires 0 <= i < n && 0 <= j < n
    ensures 0 <= i * n + j < n * n
    ensures (i * n + j) / n == i && (i * n + j) % n == j
  {
    TileOffsetBelow(i, j, n, n);
    DivModRowMajor(i, j, n);
  }

  lemma MulAtLeast(x: int, n: int)
    requires x >= 1 && n >= 0
    ensures x * n >= n
  {
    if x > 1 {
      MulAtLeast(x - 1, n);
      assert x * n == (x - 1) * n + n;
    }
  }

  /** Row-major index arithmetic: `(i*n + j) // n == i` and `% n == j`. */
  lemma DivModRowMajor(i: int, j: int, n: int)
    requires n > 0 && 0 <= j < n
    ensures (i * n + j) / n == i && (i * n + j) % n == j
  {
    var a := i * n + j;
    var q := a / n;
    var r := a % n;
    assert q * n + r == a;
    if q > i {
      MulAtLeast(q - i, n);
      assert false;
    } else if q < i {
      MulAtLeast(i - q, n);
      assert false;
    }
  }

  /** A cell of tile `i < n` lies inside the `n * b` padded extent. */
  lemma TileOffsetBelow(i: int, r: int, b: int, n: int)
    requires 0 <= i < n && 0 <= r < b
    ensures 0 <= i * b + r < n * b
  {
    MulAtLeast(n - i, b);
    assert (n - i) * b == n * b - i * b;
  }

  lemma DivModSplit(a: int, b: int)
    requires b > 0
    ensures a == (a / b) * b + a % b
  {
  }

  lemma MulMonotone(a: int, b: int, c: int)
    requires 0 <= a <= b && c >= 0
    ensures a * c <= b * c
  {
    if a < b {
      MulAtLeast(b - a, c);
      assert (b - a) * c == b * c - a * c;
    }
  }

  /** A coordinate inside an `n * b` extent falls in one of the `n` tiles. */
  lemma DivBelow(a: int, b: int, n: int)
    requires b > 0 && 0 <= a < n * b
    ensures 0 <= a / b < n
  {
    var q := a / b;
    assert q * b + a % b == a;
    if q >= n {
      MulMonotone(n, q, b);
      assert false;
    }
  }

  /** The number of pixels along one side of a tile: the side divided by
      `n`, rounded up. */
  function BlockLength(d: nat, n: nat): (r: nat)
    requires n > 0
    ensures d > 0 ==> r > 0
  {
    d / n + (if d % n != 0 then 1 else 0)
  }

  /** The padded length of one side: `n - (d % n)` zeros are added only when
      `d` is not already a multiple of `n`. */
  function PaddedLength(d: nat, n: nat): (r: nat)
    requires n > 0
    ensures r == BlockLength(d, n) * n
    ensures d <= r < d + n
    ensures d % n == 0 ==> r == d
  {
    var q := d / n;
    assert d == q * n + d % n;
    if d % n != 0 then
      assert d + (n - d % n) == (q + 1) * n;
      d + (n - d % n)
    else d
  }

  /** Python's `int(a / b)` for a positive divisor: truncation toward zero,
      which differs from Dafny's `/` for negative `a`. */
  function TruncDiv(a: int, b: int): (r: int)
    requires b > 0
    ensures a >= 0 ==> r == a / b
    ensures a < 0 ==> r <= 0 && -a / b == -r
  {
    if a >= 0 then a / b else -((-a) / b)
  }

  /** The pixels of tile `(i, j)`: block `(i, j)` of the zero-padded image. */
  function Tile(data: seq<seq<real>>, rows: nat, cols: nat, blockRows: nat, blockCols: nat,
                i: nat, j: nat): (r: seq<seq<real>>)
    requires WellShaped(data, rows, cols)
    ensures WellShaped(r, blockRows, blockCols)
    ensures forall a, b :: 0 <= a < blockRows && 0 <= b < blockCols ==>
      r[a][b] == (if i * blockRows + a < rows && j * blockCols + b < cols
                  then data[i * blockRows + a][j * blockCols + b] else 0.0)
  {
    seq(blockRows, a requires 0 <= a < blockRows =>
      seq(blockCols, b requires 0 <= b < blockCols =>
        var y := i * blockRows + a;
        var x := j * blockCols + b;
        if y < rows && x < cols then data[y][x] else 0.0))
  }

  /** `_create_patches`: the patch with grid index `(i, j)` is appended at
      list position `i * n + j`. */
  function CreatePatches(data: seq<seq<real>>, rows: nat, cols: nat, n: nat,
                         blockRows: nat, blockCols: nat, k: Kernels): (r: seq<Patch>)
    requires WellShaped(data, rows, cols) && n > 0
    ensures |r| == n * n
    ensures forall idx :: 0 <= idx < |r| ==>
      && r[idx].index == GridIndex(idx / n, idx % n)
      && r[idx].data == Tile(data, rows, cols, blockRows, blockCols, idx / n, idx % n)
      && r[idx].rows == blockRows && r[idx].cols == blockCols && r[idx].Valid()
      && r[idx].history.None?
  {
    seq(n * n, idx requires 0 <= idx < n * n =>
      var i := idx / n;
      var j := idx % n;
      NewPatch(GridIndex(i, j), Tile(data, rows, cols, blockRows, blockCols, i, j),
               blockRows, blockCols, k))
  }

  /** `Image(path, num_patches)` once the pixels are read: `ValueError` for a
      non-positive patch count, otherwise the padded grid of patches. */
  function NewImage(data: seq<seq<real>>, rows: nat, cols: nat, numPatches: int, k: Kernels): (r: Result<Image>)
    requires WellShaped(data, rows, cols) && rows > 0 && cols > 0
    ensures r.ValueError? <==> numPatches <= 0
    ensures r.Ok? ==>
      && r.value.Valid() && r.value.RowMajor() && r.value.TilesShaped()
      && r.value.numPatches == numPatches
      && r.value.data == data && r.value.rows == rows && r.value.cols == cols
      && r.value.paddedRows == PaddedLength(rows, numPatches)
      && r.value.paddedCols == PaddedLength(cols, numPatches)
      && forall k | 0 <= k < |r.value.patches| :: r.value.patches[k].history.None?
  {
    if numPatches <= 0 then ValueError
    else
      var n: nat := numPatches;
      var pr := PaddedLength(rows, n);
      var pc := PaddedLength(cols, n);
      var br := BlockLength(rows, n);
      var bc := BlockLength(cols, n);
      var ps := CreatePatches(data, rows, cols, n, br, bc, k);
      var img := Image(data, rows, cols, n, pr, pc, br, bc, ps);
      IndexedIsRowMajor(ps, n);
      Ok(img)
  }

  /** `get_patch_from_coords((row, col))`: the list index of the patch
      under an image coordinate, `int(row / bh) * n + int(col / bw)`. A
      coordinate of the padded image names a patch whose grid row and
      column are its tile row and column; since `int` truncates toward
      zero, a row less than one tile above the image still lands in tile
      row 0. */
  function GetPatchFromCoords(img: Image, row: int, col: int): (r: int)
    requires img.Valid()
    ensures 0 <= row < img.paddedRows && 0 <= col < img.paddedCols ==>
      && 0 <= r < |img.patches|
      && r / img.numPatches == row / img.blockRows
      && r % img.numPatches == col / img.blockCols
    ensures row < 0 && row + img.blockRows > 0 && 0 <= col < img.paddedCols ==> r == col / img.blockCols
  {
    var i, j := TruncDiv(row, img.blockRows), TruncDiv(col, img.blockCols);
    if 0 <= row < img.paddedRows && 0 <= col < img.paddedCols then
      GridSlot(row, col, img.blockRows, img.blockCols, img.numPatches);
      i * img.numPatches + j
    else if row < 0 && row + img.blockRows > 0 then
      assert (-row) / img.blockRows == 0;
      assert i == 0;
      i * img.numPatches + j
    else
      i * img.numPatches + j
  }

  /** A coordinate inside the `n * bh` by `n * bw` padded extent lands on a
      row-major slot below `n * n` whose quotient and remainder by `n` are
      its tile row and column. */
  lemma GridSlot(row: int, col: int, bh: int, bw: int, n: int)
    requires bh > 0 && bw > 0 && 0 <= row < n * bh && 0 <= col < n * bw
    ensures var s := (row / bh) * n + col / bw;
      0 <= s < n * n && s / n == row / bh && s % n == col / bw
  {
    DivBelow(row, bh, n);
    DivBelow(col, bw, n);
    TileOffsetBelow(row / bh, col / bw, n, n);
    DivModRowMajor(row / bh, col / bw, n);
  }

  /** Every coordinate of the padded image maps to a list index whose patch
      has grid index `(row // bh, col // bw)`, and the pixel there is at
      offset `(row % bh, col % bw)` inside that patch. */
  lemma CoordsLocatePatch(img: Image, row: int, col: int)
    requires img.Valid() && img.RowMajor()
    requires 0 <= row < img.paddedRows && 0 <= col < img.paddedCols
    ensures var idx := GetPatchFromCoords(img, row, col);
      && 0 <= idx < |img.patches|
      && img.patches[idx].index.row == row / img.blockRows
      && img.patches[idx].index.col == col / img.blockCols
  {
    var n := img.numPatches;
    var i := row / img.blockRows;
    var j := col / img.blockCols;
    DivBelow(row, img.blockRows, n);
    DivBelow(col, img.blockCols, n);
    assert GetPatchFromCoords(img, row, col) == i * n + j;
    TileOffsetBelow(i, j, n, n);
    assert RowMajorSlot(img.patches, n, i, j);
  }

  /** Where `_create_mask` puts cell `c` of patch `p`: offset by the patch's
      grid position times its size. */
  function Placed(p: Patch, c: Cell): Cell {
    Cell(p.index.row * p.rows + c.row, p.index.col * p.cols + c.col)
  }

  /** `_create_mask`: each patch mask is placed at
      `(i * patch_rows, j * patch_cols)` and the padded result is cropped to
      the image. */
  function CreateMask(img: Image): (r: set<Cell>)
    ensures r <= Cells(img.rows, img.cols)
    ensures forall k, c :: 0 <= k < |img.patches| && c in img.patches[k].mask ==>
      (Placed(img.patches[k], c) in r <==> Placed(img.patches[k], c) in Cells(img.rows, img.cols))
  {
    var placed := set k, c | 0 <= k < |img.patches| && c in img.patches[k].mask :: Placed(img.patches[k], c);
    set c | c in placed && 0 <= c.row < img.rows && 0 <= c.col < img.cols
  }

  /** A cell `c` of patch `k`, placed in the image, maps straight back to
      patch `k` and cell `c`. */
  lemma PlacedCellLocated(img: Image, k: int, c: Cell)
    requires img.Valid() && img.RowMajor() && img.TilesShaped()
    requires 0 <= k < |img.patches| && 0 <= c.row < img.blockRows && 0 <= c.col < img.blockCols
    ensures var q := Placed(img.patches[k], c);
      && q.row >= 0 && q.col >= 0
      && q.row % img.blockRows == c.row && q.col % img.blockCols == c.col
      && GetPatchFromCoords(img, q.row, q.col) == k
  {
    var p := img.patches[k];
    assert p.rows == img.blockRows && p.cols == img.blockCols;
    DivModRowMajor(p.index.row, c.row, img.blockRows);
    DivModRowMajor(p.index.col, c.col, img.blockCols);
    IndexOfGridIndex(img, k);
  }

  /** An image coordinate is the placement of the cell at its offset in
      the patch that `get_patch_from_coords` picks for it. */
  lemma CoordIsPlaced(img: Image, row: int, col: int)
    requires img.Valid() && img.RowMajor() && img.TilesShaped()
    requires 0 <= row < img.paddedRows && 0 <= col < img.paddedCols
    ensures var idx := GetPatchFromCoords(img, row, col);
      0 <= idx < |img.patches| &&
      Placed(img.patches[idx], Cell(row % img.blockRows, col % img.blockCols)) == Cell(row, col)
  {
    CoordsLocatePatch(img, row, col);
    var idx := GetPatchFromCoords(img, row, col);
    var p := img.patches[idx];
    assert p.rows == img.blockRows && p.cols == img.blockCols;
    DivModSplit(row, img.blockRows);
    DivModSplit(col, img.blockCols);
  }

  /** For an image laid out by `NewImage`, an image cell is foreground
      exactly when the corresponding cell of the patch covering it is. */
  lemma CreateMaskCharacterised(img: Image, row: int, col: int)
    requires img.Valid() && img.RowMajor() && img.TilesShaped()
    requires 0 <= row < img.rows && 0 <= col < img.cols
    ensures var idx := GetPatchFromCoords(img, row, col);
      0 <= idx < |img.patches| &&
      (Cell(row, col) in CreateMask(img) <==>
       Cell(row % img.blockRows, col % img.blockCols) in img.patches[idx].mask)
  {
    CoordIsPlaced(img, row, col);
    var idx := GetPatchFromCoords(img, row, col);
    var cell := Cell(row % img.blockRows, col % img.blockCols);
    var mask := CreateMask(img);
    if Cell(row, col) in mask {
      var k, c :| 0 <= k < |img.patches| && c in img.patches[k].mask &&
        Cell(row, col) == Placed(img.patches[k], c);
      assert img.patches[k].Valid() && img.patches[k].rows == img.blockRows && img.patches[k].cols == img.blockCols;
      PlacedCellLocated(img, k, c);
    }
    if cell in img.patches[idx].mask {
      assert Placed(img.patches[idx], cell) in Cells(img.rows, img.cols);
    }
  }

  /** In a row-major image the list index of a patch is fixed by its grid
      index. */
  lemma IndexOfGridIndex(img: Image, k: int)
    requires img.Valid() && img.RowMajor() && 0 <= k < |img.patches|
    ensures var g := img.patches[k].index;
      g.row < img.numPatches && g.col < img.numPatches && k == g.row * img.numPatches + g.col
  {
    var n := img.numPatches;
    var i := k / n;
    var j := k % n;
    assert k == i * n + j;
    DivBelow(k, n, n);
    assert RowMajorSlot(img.patches, n, i, j);
  }
}
