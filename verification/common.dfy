/** Shared vocabulary of the annotation tool's model: optional values and
    error results, pixel coordinates, patch-grid coordinates, and the two
    string helpers the controller and the undo manager rely on (substring
    test and decimal rendering of a natural number). */
module Common {

  /** A value that may be absent (Python's `None`). */
  datatype Option<T> = None | Some(value: T) {
    function GetOr(default: T): T {
      match this
      case Some(v) => v
      case None => default
    }
  }

  /** The outcome of an operation that raises `ValueError` on bad input. */
  datatype Result<T> = Ok(value: T) | ValueError

  /** A pixel coordinate (row, column). Coordinates may lie outside a patch:
      the brush disk and click positions are not clipped in advance. */
  datatype Cell = Cell(row: int, col: int)

  /** A patch's position `(i, j)` in the image's n-by-n patch grid. */
  datatype GridIndex = GridIndex(row: nat, col: nat)

  /** `data` is a `rows` by `cols` rectangle of intensities. */
  ghost predicate WellShaped(data: seq<seq<real>>, rows: nat, cols: nat) {
    |data| == rows && forall r :: 0 <= r < rows ==> |data[r]| == cols
  }

  /** Every coordinate of a `rows` by `cols` rectangle. */
  function Cells(rows: nat, cols: nat): (r: set<Cell>)
    ensures forall c :: c in r <==> 0 <= c.row < rows && 0 <= c.col < cols
  {
    set i, j | 0 <= i < rows && 0 <= j < cols :: Cell(i, j)
  }

  /** `sub` occurs in `s` starting at index `i`. */
  predicate OccursAt(s: string, sub: string, i: int) {
    0 <= i <= |s| - |sub| && s[i..i + |sub|] == sub
  }

  /** Python's `sub in s` for strings. */
  predicate Contains(s: string, sub: string) {
    exists i | 0 <= i <= |s| :: OccursAt(s, sub, i)
  }

  /** A string lacking one of `sub`'s characters cannot contain `sub`. */
  lemma NotContainsByMissingChar(s: string, sub: string, k: nat)
    requires k < |sub| && sub[k] !in s
    ensures !Contains(s, sub)
  {
    forall i | 0 <= i <= |s| - |sub|
      ensures !OccursAt(s, sub, i)
    {
      assert s[i..i + |sub|][k] == s[i + k];
      assert s[i + k] in s;
    }
  }

  /** Python's `str(n)` for a non-negative integer. */
  function NatToString(n: nat): (r: string)
    ensures |r| > 0
    ensures IsDigits(r)
    ensures DecimalValue(r) == n
  {
    var d := ['0' + (n % 10) as char];
    if n < 10 then d
    else
      var s := NatToString(n / 10);
      assert (s + d)[..|s|] == s;
      s + d
  }

  predicate IsDigits(s: string) {
    forall k :: 0 <= k < |s| ==> '0' <= s[k] <= '9'
  }

  /** The number a string of decimal digits denotes, most significant digit
      first. */
  function DecimalValue(s: string): nat
    requires IsDigits(s)
  {
    if |s| == 0 then 0
    else DecimalValue(s[..|s| - 1]) * 10 + (s[|s| - 1] as int - '0' as int)
  }

  /** Distinct drag ids are printed as distinct strings. */
  lemma {:induction false} NatToStringInjective(a: nat, b: nat)
    ensures NatToString(a) == NatToString(b) <==> a == b
  {
  }
}
