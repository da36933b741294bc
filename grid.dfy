/**
 * The fixed-shape table of non-negative integers that the diff engine uses as
 * storage for longest-common-subsequence lengths (`grid::Grid`). Only the
 * operations the diff engine uses are modelled: `new`, `get`, `set`, `size`.
 */
module Grids {
  import opened Wrappers

  /** The only way a grid access can fail: a row or column out of range. */
  datatype GridError = IndexError

  /** The table `t` with the cell at row `r`, column `c` replaced by `v`. */
  function Updated(t: seq<seq<nat>>, r: nat, c: nat, v: nat): (u: seq<seq<nat>>)
    requires r < |t| && c < |t[r]|
    ensures |u| == |t| && forall x :: 0 <= x < |t| ==> |u[x]| == |t[x]|
    ensures forall x, y :: 0 <= x < |t| && 0 <= y < |t[x]| ==>
      u[x][y] == if x == r && y == c then v else t[x][y]
  {
    var line: seq<nat> := t[r][c := v];
    t[r := line]
  }

  class Grid {
    const rows: nat
    const cols: nat
    const cells: array2<nat>

    /** The abstract value of the grid: `Contents[r][c]` is the cell at row `r`, column `c`. */
    ghost var Contents: seq<seq<nat>>

    ghost predicate Valid()
      reads this, cells
    {
      cells.Length0 == rows && cells.Length1 == cols &&
      |Contents| == rows &&
      (forall r :: 0 <= r < rows ==> |Contents[r]| == cols) &&
      (forall r, c :: 0 <= r < rows && 0 <= c < cols ==> cells[r, c] == Contents[r][c])
    }

    /** `Grid::new(rows, cols)`: every cell starts at 0. */
    constructor (rows: nat, cols: nat)
      ensures Valid() && fresh(cells)
      ensures this.rows == rows && this.cols == cols
      ensures forall r, c :: 0 <= r < rows && 0 <= c < cols ==> Contents[r][c] == 0
    {
      this.rows := rows;
      this.cols := cols;
      cells := new nat[rows, cols]((r, c) => 0);
      Contents := seq(rows, r => seq(cols, c => 0));
    }

    /** `size()`: the number of rows and of columns. */
    function Size(): (d: (nat, nat))
      reads this, cells
      requires Valid()
      ensures d.0 == |Contents|
      ensures forall r :: 0 <= r < |Contents| ==> |Contents[r]| == d.1
    {
      (rows, cols)
    }

    /** `get(row, col)`: the stored value, or nothing when the position is out of range. */
    method Get(row: nat, col: nat) returns (v: Option<nat>)
      requires Valid()
      ensures row < |Contents| && col < |Contents[row]| ==> v == Some(Contents[row][col])
      ensures !(row < |Contents| && col < |Contents[row]|) ==> v == None
    {
      if row < rows && col < cols {
        v := Some(cells[row, col]);
      } else {
        v := None;
      }
    }

    /** `set(row, col, val)`: overwrites one cell, or fails with `IndexError` and changes nothing. */
    method Set(row: nat, col: nat, val: nat) returns (res: Result<(), GridError>)
      requires Valid()
      modifies this, cells
      ensures Valid()
      ensures row < rows && col < cols ==>
        res == Ok(()) && Contents == Updated(old(Contents), row, col, val)
      ensures !(row < rows && col < cols) ==> res == Err(IndexError) && Contents == old(Contents)
    {
      if row < rows && col < cols {
        cells[row, col] := val;
        Contents := Updated(Contents, row, col, val);
        res := Ok(());
      } else {
        res := Err(IndexError);
      }
    }
  }
}
