/** The image-processing library routines the tool calls, as black boxes.
    Each is a total function of its inputs; nothing is assumed about the
    values it returns beyond their types. */
module PixelMath {
  import opened Common

  /** - `otsu(data)`: Otsu's threshold of a patch, `None` when the library
        raises `ValueError` (e.g. a constant patch);
      - `disk(centre, radius)`: the coordinates of the filled circle the
        drawing library rasterises, possibly outside any patch;
      - `flood(data, seed, tolerance)`: the cells the flood-fill routine
        marks when started at `seed` with the given tolerance. */
  datatype Kernels = Kernels(
    otsu: seq<seq<real>> -> Option<real>,
    disk: (Cell, int) -> set<Cell>,
    flood: (seq<seq<real>>, Cell, real) -> set<Cell>)
}
