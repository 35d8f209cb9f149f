/** The 9×9 Sudoku grid.

    The solver mutates the grid in place as an `array2<int>`; everything that is said about a
    grid is said about its value, a `Board`: a sequence of rows of cell values, 0 meaning
    "unassigned". `Snapshot` reads the value of an array, and `Assign` is the value-level
    counterpart of writing one cell. */
module Grid {
  /** A grid as a value: `b[i][j]` is the cell in row `i`, column `j`. */
  type Board = seq<seq<int>>

  /** A board with 9 rows of 9 cells. */
  predicate IsGrid(b: Board) {
    |b| == 9 && forall i :: 0 <= i < |b| ==> |b[i]| == 9
  }

  /** The current value of the array `g`, row by row. */
  function Snapshot(g: array2<int>): (b: Board)
    reads g
    ensures |b| == g.Length0
    ensures forall i :: 0 <= i < g.Length0 ==> |b[i]| == g.Length1
    ensures forall i, j :: 0 <= i < g.Length0 && 0 <= j < g.Length1 ==> b[i][j] == g[i, j]
    ensures g.Length0 == 9 && g.Length1 == 9 ==> IsGrid(b)
  {
    seq(g.Length0, i requires 0 <= i < g.Length0 reads g =>
      seq(g.Length1, j requires 0 <= j < g.Length1 reads g => g[i, j]))
  }

  /** Two 9×9 boards that agree on every cell are the same board. */
  lemma SameCells(a: Board, b: Board)
    requires IsGrid(a) && IsGrid(b)
    requires forall i, j :: 0 <= i < 9 && 0 <= j < 9 ==> a[i][j] == b[i][j]
    ensures a == b
  {
    forall i | 0 <= i < 9
      ensures a[i] == b[i]
    {
      assert forall j :: 0 <= j < 9 ==> a[i][j] == b[i][j];
    }
  }

  /** The board after cell (r, c) is set to `v`; every other cell keeps its value. */
  function Assign(b: Board, r: nat, c: nat, v: int): (b': Board)
    requires r < |b| && c < |b[r]|
    ensures |b'| == |b| && forall i :: 0 <= i < |b| ==> |b'[i]| == |b[i]|
    ensures IsGrid(b) ==> IsGrid(b')
  {
    b[r := b[r][c := v]]
  }

  /** Writes `v` into cell (r, c) of the array: its new value is the old one with that cell
      assigned. */
  method SetCell(g: array2<int>, r: nat, c: nat, v: int)
    requires g.Length0 == 9 && g.Length1 == 9 && r < 9 && c < 9
    modifies g
    ensures Snapshot(g) == Assign(old(Snapshot(g)), r, c, v)
  {
    ghost var before := Snapshot(g);
    g[r, c] := v;
    SameCells(Snapshot(g), Assign(before, r, c, v));
  }

  /** Writing back the value a cell had undoes a write to it. */
  lemma AssignUndo(b: Board, r: nat, c: nat, v: int)
    requires r < |b| && c < |b[r]|
    ensures Assign(Assign(b, r, c, v), r, c, b[r][c]) == b
  {
    assert Assign(b, r, c, v)[r][c := b[r][c]] == b[r];
  }

  /** The 9 values of row `r`, in column order. */
  function RowValues(b: Board, r: nat): (s: seq<int>)
    requires IsGrid(b) && r < 9
    ensures |s| == 9 && forall j :: 0 <= j < 9 ==> s[j] == b[r][j]
  {
    b[r]
  }

  /** The 9 values of column `c`, in row order. */
  function ColumnValues(b: Board, c: nat): (s: seq<int>)
    requires IsGrid(b) && c < 9
    ensures |s| == 9 && forall i :: 0 <= i < 9 ==> s[i] == b[i][c]
  {
    seq(9, i requires 0 <= i < 9 => b[i][c])
  }

  /** The first row and the first column of the 3×3 block holding row or column `k`. */
  function BlockStart(k: nat): (s: nat)
    ensures s % 3 == 0 && s <= k < s + 3
  {
    (k / 3) * 3
  }

  /** Cell (i, j) lies in the 3×3 block that holds cell (r, c). */
  predicate InBlockOf(i: int, j: int, r: nat, c: nat) {
    BlockStart(r) <= i < BlockStart(r) + 3 && BlockStart(c) <= j < BlockStart(c) + 3
  }

  /** The 9 values of the 3×3 block holding cell (r, c): three row slices of three cells each,
      which lists the block in row-major order. */
  function BlockValues(b: Board, r: nat, c: nat): (s: seq<int>)
    requires IsGrid(b) && r < 9 && c < 9
    ensures |s| == 9
    ensures forall k :: 0 <= k < 3 ==> s[k] == b[BlockStart(r)][BlockStart(c) + k]
    ensures forall k :: 3 <= k < 6 ==> s[k] == b[BlockStart(r) + 1][BlockStart(c) + k - 3]
    ensures forall k :: 6 <= k < 9 ==> s[k] == b[BlockStart(r) + 2][BlockStart(c) + k - 6]
  {
    var top, left := BlockStart(r), BlockStart(c);
    b[top][left..left + 3] + b[top + 1][left..left + 3] + b[top + 2][left..left + 3]
  }

  /** Position `k` of a block's listing is the cell `k / 3` rows below and `k % 3` columns right
      of the block's corner. */
  lemma BlockValuesAt(b: Board, r: nat, c: nat, k: nat)
    requires IsGrid(b) && r < 9 && c < 9 && k < 9
    ensures BlockValues(b, r, c)[k] == b[BlockStart(r) + k / 3][BlockStart(c) + k % 3]
  {
    if k < 3 {
      assert k / 3 == 0 && k % 3 == k;
    } else if k < 6 {
      assert k / 3 == 1 && k % 3 == k - 3;
    } else {
      assert k / 3 == 2 && k % 3 == k - 6;
    }
  }

  /** True when no cell is 0. Whether the filled values obey the rules is not looked at. */
  predicate IsAssignmentComplete(b: Board) {
    forall i, j :: 0 <= i < |b| && 0 <= j < |b[i]| ==> b[i][j] != 0
  }

  /** The number of 0 cells in one row. */
  ghost function RowZeros(row: seq<int>): nat {
    if row == [] then 0 else (if row[0] == 0 then 1 else 0) + RowZeros(row[1..])
  }

  /** The number of unassigned (0) cells of a board: the measure that shrinks by one with every
      level of the search. */
  ghost function ZeroCount(b: Board): nat {
    if b == [] then 0 else RowZeros(b[0]) + ZeroCount(b[1..])
  }

  lemma {:induction false} RowZerosNone(row: seq<int>)
    ensures RowZeros(row) == 0 <==> forall j :: 0 <= j < |row| ==> row[j] != 0
  {
    if row != [] {
      RowZerosNone(row[1..]);
      assert forall j :: 1 <= j < |row| ==> row[j] == row[1..][j - 1];
    }
  }

  /** A board is complete exactly when it has no unassigned cell left to count. */
  lemma {:induction false} CompleteIffNoZeros(b: Board)
    ensures IsAssignmentComplete(b) <==> ZeroCount(b) == 0
  {
    if b != [] {
      CompleteIffNoZeros(b[1..]);
      RowZerosNone(b[0]);
      assert forall i :: 1 <= i < |b| ==> b[i] == b[1..][i - 1];
    }
  }

  lemma {:induction false} RowZerosAssign(row: seq<int>, c: nat, v: int)
    requires c < |row| && row[c] == 0 && v != 0
    ensures RowZeros(row[c := v]) == RowZeros(row) - 1
  {
    if c > 0 {
      assert row[c := v][1..] == row[1..][c - 1 := v];
      RowZerosAssign(row[1..], c - 1, v);
    } else {
      assert row[c := v][1..] == row[1..];
    }
  }

  /** Filling an unassigned cell with a non-zero value leaves exactly one fewer unassigned cell. */
  lemma {:induction false} ZeroCountAssign(b: Board, r: nat, c: nat, v: int)
    requires r < |b| && c < |b[r]| && b[r][c] == 0 && v != 0
    ensures ZeroCount(Assign(b, r, c, v)) == ZeroCount(b) - 1
  {
    if r > 0 {
      assert Assign(b, r, c, v)[1..] == Assign(b[1..], r - 1, c, v);
      ZeroCountAssign(b[1..], r - 1, c, v);
    } else {
      assert Assign(b, r, c, v)[1..] == b[1..];
      RowZerosAssign(b[0], c, v);
    }
  }

  lemma {:induction false} RowZerosBound(row: seq<int>)
    ensures RowZeros(row) <= |row|
  {
    if row != [] {
      RowZerosBound(row[1..]);
    }
  }

  lemma {:induction false} ZeroCountBoundRows(b: Board)
    requires forall i :: 0 <= i < |b| ==> |b[i]| == 9
    ensures ZeroCount(b) <= 9 * |b|
  {
    if b != [] {
      RowZerosBound(b[0]);
      ZeroCountBoundRows(b[1..]);
    }
  }

  /** A 9×9 board has at most 81 unassigned cells, so the search is at most 81 levels deep. */
  lemma ZeroCountBound(b: Board)
    requires IsGrid(b)
    ensures ZeroCount(b) <= 81
  {
    ZeroCountBoundRows(b);
  }
}
