/** The backtracking search: cell selection, the consistency check, and the recursive search
    that fills the grid in place and undoes each tentative write that leads nowhere. */
module Solver {
  import opened Wrappers
  import opened Grid
  import opened Rules

  /** The order in which candidate values are tried at every cell. */
  const SudokuDomain: seq<int> := [1, 2, 3, 4, 5, 6, 7, 8, 9]

  /** Cell (i, j) comes before cell (i', j') when the grid is read row by row. */
  predicate RowMajorBefore(i: int, j: int, i': int, j': int) {
    i < i' || (i == i' && j < j')
  }

  /** The first unassigned cell in row-major order, or `None` when there is none. */
  method SelectUnassignedVar(grid: array2<int>) returns (pos: Option<(nat, nat)>)
    ensures pos.Some? ==>
      pos.value.0 < grid.Length0 && pos.value.1 < grid.Length1 &&
      grid[pos.value.0, pos.value.1] == 0 &&
      forall i, j ::
        (0 <= i < grid.Length0 && 0 <= j < grid.Length1 && RowMajorBefore(i, j, pos.value.0, pos.value.1))
        ==> grid[i, j] != 0
    ensures pos.None? ==> forall i, j :: 0 <= i < grid.Length0 && 0 <= j < grid.Length1 ==> grid[i, j] != 0
    ensures pos.None? <==> IsAssignmentComplete(Snapshot(grid))
  {
    for i := 0 to grid.Length0
      invariant forall i', j' :: 0 <= i' < i && 0 <= j' < grid.Length1 ==> grid[i', j'] != 0
    {
      for j := 0 to grid.Length1
        invariant forall i', j' :: 0 <= i' < i && 0 <= j' < grid.Length1 ==> grid[i', j'] != 0
        invariant forall j' :: 0 <= j' < j ==> grid[i, j'] != 0
      {
        if grid[i, j] == 0 {
          return Some((i, j));
        }
      }
    }
    return None;
  }

  /** Whether `value` may go into cell (r, c): it must not already occur in the cell's row, its
      column or its 3×3 block. */
  function CheckAssignmentConsistency(b: Board, r: nat, c: nat, value: int): (ok: bool)
    requires IsGrid(b) && r < 9 && c < 9
    ensures ok <==>
      (forall j :: 0 <= j < 9 ==> b[r][j] != value) &&
      (forall i :: 0 <= i < 9 ==> b[i][c] != value) &&
      (forall i, j :: InBlockOf(i, j, r, c) ==> b[i][j] != value)
  {
    BlockMembers(b, r, c, value);
    !(value in RowValues(b, r) || value in ColumnValues(b, c) || value in BlockValues(b, r, c))
  }

  /** A value occurs in the block listing of (r, c) exactly when some cell of that block holds it. */
  lemma BlockMembers(b: Board, r: nat, c: nat, value: int)
    requires IsGrid(b) && r < 9 && c < 9
    ensures value in BlockValues(b, r, c) <==> exists i, j :: InBlockOf(i, j, r, c) && b[i][j] == value
  {
    var block, top, left := BlockValues(b, r, c), BlockStart(r), BlockStart(c);
    if value in block {
      var k :| 0 <= k < 9 && block[k] == value;
      BlockValuesAt(b, r, c, k);
      assert InBlockOf(top + k / 3, left + k % 3, r, c);
    }
    forall i, j | InBlockOf(i, j, r, c) && b[i][j] == value ensures value in block {
      var k := (i - top) * 3 + (j - left);
      assert k / 3 == i - top && k % 3 == j - left;
      BlockValuesAt(b, r, c, k);
    }
  }

  /** The least of the values that are at least 3 and at least `num`. */
  function CapToThree(num: int): (r: int)
    ensures r >= 3 && r >= num
    ensures r == 3 || r == num
  {
    if num < 3 then 3 else num
  }

  /** `s` keeps every assigned cell of `b` and holds a value from `domain` in each
      cell that is unassigned in `b`. */
  ghost predicate Fills(b: Board, s: Board, domain: seq<int>)
    requires IsGrid(b) && IsGrid(s)
  {
    forall i, j :: 0 <= i < 9 && 0 <= j < 9 ==>
      (b[i][j] != 0 ==> s[i][j] == b[i][j]) && (b[i][j] == 0 ==> s[i][j] in domain)
  }

  /** `s` is a solution the search is after for `b`: complete, free of conflicts, and a filling
      of `b` from `domain`. */
  ghost predicate IsCompletion(s: Board, b: Board, domain: seq<int>)
    requires IsGrid(b)
  {
    IsGrid(s) && IsAssignmentComplete(s) && NoConflicts(s) && Fills(b, s, domain)
  }

  ghost predicate HasCompletion(b: Board, domain: seq<int>)
    requires IsGrid(b)
  {
    exists s :: IsCompletion(s, b, domain)
  }

  /** A cell's peers in the same block lie in the block with the cell's corner. */
  lemma PeerInView(i: nat, j: nat, r: nat, c: nat)
    requires i < 9 && j < 9 && r < 9 && c < 9 && Peers(i, j, r, c)
    ensures i == r || j == c || InBlockOf(i, j, r, c)
  {
  }

  /** Writing a value that passes the consistency check never creates a conflict: if the board
      had none before the write, it has none after. */
  lemma {:induction false} ConsistentWriteKeepsNoConflicts(b: Board, r: nat, c: nat, v: int)
    requires IsGrid(b) && r < 9 && c < 9
    requires NoConflicts(b) && CheckAssignmentConsistency(b, r, c, v)
    ensures NoConflicts(Assign(b, r, c, v))
  {
    var b' := Assign(b, r, c, v);
    forall i, j, i', j' |
      0 <= i < 9 && 0 <= j < 9 && 0 <= i' < 9 && 0 <= j' < 9 && Peers(i, j, i', j') && b'[i][j] != 0
      ensures b'[i][j] != b'[i'][j']
    {
      if (i, j) == (r, c) {
        PeerInView(i', j', r, c);
      } else if (i', j') == (r, c) {
        PeerInView(i, j, r, c);
      }
    }
  }

  /** The value a completion gives to an unassigned cell passes the consistency check there. */
  lemma {:induction false} CompletionValueIsConsistent(s: Board, b: Board, domain: seq<int>, r: nat, c: nat)
    requires IsGrid(b) && r < 9 && c < 9 && b[r][c] == 0
    requires IsCompletion(s, b, domain)
    ensures CheckAssignmentConsistency(b, r, c, s[r][c])
  {
    forall i, j | 0 <= i < 9 && 0 <= j < 9 && (i == r || j == c || InBlockOf(i, j, r, c))
      ensures b[i][j] != s[r][c]
    {
      if (i, j) != (r, c) && b[i][j] != 0 {
        assert Peers(r, c, i, j);
      }
    }
  }

  /** A completion of `b` that puts `v` at (r, c) is a completion of `b` with `v` written there. */
  lemma CompletionOfWrite(s: Board, b: Board, domain: seq<int>, r: nat, c: nat)
    requires IsGrid(b) && r < 9 && c < 9 && b[r][c] == 0
    requires IsCompletion(s, b, domain)
    ensures IsCompletion(s, Assign(b, r, c, s[r][c]), domain)
  {
  }

  /** A filling of `b` with `v` written at an unassigned (r, c) is a filling of `b`, when `v`
      is itself taken from the domain. */
  lemma FillsAfterWrite(b: Board, s: Board, domain: seq<int>, r: nat, c: nat, v: int)
    requires IsGrid(b) && IsGrid(s) && r < 9 && c < 9 && b[r][c] == 0 && v in domain && v != 0
    requires Fills(Assign(b, r, c, v), s, domain)
    ensures Fills(b, s, domain)
  {
  }

  /** No completion of `b` holds at (r, c) any of the values `tried`. */
  ghost predicate RuledOut(b: Board, domain: seq<int>, r: nat, c: nat, tried: seq<int>)
    requires IsGrid(b) && r < 9 && c < 9
  {
    forall s :: IsCompletion(s, b, domain) ==> s[r][c] !in tried
  }

  /** A value that fails the consistency check at an unassigned cell is the value of no completion
      there. */
  lemma {:induction false} InconsistentValueRuledOut(b: Board, domain: seq<int>, r: nat, c: nat, v: int)
    requires IsGrid(b) && r < 9 && c < 9 && b[r][c] == 0
    requires !CheckAssignmentConsistency(b, r, c, v)
    ensures RuledOut(b, domain, r, c, [v])
  {
    forall s | IsCompletion(s, b, domain) ensures CheckAssignmentConsistency(b, r, c, s[r][c]) {
      CompletionValueIsConsistent(s, b, domain, r, c);
    }
  }

  /** When writing `v` at an unassigned cell leaves a board with no completion, no completion of
      the board before the write holds `v` there. */
  lemma {:induction false} FailedValueRuledOut(b: Board, domain: seq<int>, r: nat, c: nat, v: int)
    requires IsGrid(b) && r < 9 && c < 9 && b[r][c] == 0
    requires !HasCompletion(Assign(b, r, c, v), domain)
    ensures RuledOut(b, domain, r, c, [v])
  {
    forall s | IsCompletion(s, b, domain) && s[r][c] == v
      ensures IsCompletion(s, Assign(b, r, c, v), domain)
    {
      CompletionOfWrite(s, b, domain, r, c);
    }
  }

  /** Values ruled out one after another are ruled out together. */
  lemma RuledOutAppend(b: Board, domain: seq<int>, r: nat, c: nat, tried: seq<int>, v: int)
    requires IsGrid(b) && r < 9 && c < 9
    requires RuledOut(b, domain, r, c, tried) && RuledOut(b, domain, r, c, [v])
    ensures RuledOut(b, domain, r, c, tried + [v])
  {
  }

  /** Once every value of the domain is ruled out at an unassigned cell, the board has no
      completion. */
  lemma NoValueLeft(b: Board, domain: seq<int>, r: nat, c: nat)
    requires IsGrid(b) && r < 9 && c < 9 && b[r][c] == 0
    requires RuledOut(b, domain, r, c, domain)
    ensures !HasCompletion(b, domain)
  {
  }

  /** The recursive backtracking search over the grid, in place.

      On entry a complete grid is returned as it is. Otherwise the first unassigned cell is
      selected and each value of `domain` is tried there in order (`TryValue`); the first
      success is returned at once. */
  method RecursiveBacktracking(grid: array2<int>, domain: seq<int>) returns (result: Option<array2<int>>)
    requires grid.Length0 == 9 && grid.Length1 == 9
    modifies grid
    decreases ZeroCount(Snapshot(grid)), 1
    ensures old(IsAssignmentComplete(Snapshot(grid))) ==>
      result == Some(grid) && Snapshot(grid) == old(Snapshot(grid))
    ensures result.Some? ==>
      result.value == grid && IsAssignmentComplete(Snapshot(grid)) &&
      Fills(old(Snapshot(grid)), Snapshot(grid), domain)
    ensures result.Some? && old(NoConflicts(Snapshot(grid))) ==> NoConflicts(Snapshot(grid))
    ensures result.None? ==> Snapshot(grid) == old(Snapshot(grid))
    ensures result.None? ==> !HasCompletion(old(Snapshot(grid)), domain)
  {
    ghost var b0 := Snapshot(grid);
    if IsAssignmentComplete(Snapshot(grid)) {
      return Some(grid);
    }
    var unassigned := SelectUnassignedVar(grid);
    var r, c := unassigned.value.0, unassigned.value.1;
    for k := 0 to |domain|
      invariant Snapshot(grid) == b0
      invariant RuledOut(b0, domain, r, c, domain[..k])
    {
      result := TryValue(grid, domain, r, c, domain[k]);
      if result.Some? {
        return;
      }
      RuledOutAppend(b0, domain, r, c, domain[..k], domain[k]);
      assert domain[..k + 1] == domain[..k] + [domain[k]];
    }
    assert domain[..|domain|] == domain;
    NoValueLeft(b0, domain, r, c);
    return None;
  }

  /** One turn of the search's loop over the domain, at the selected unassigned cell (r, c): if
      `value` passes the consistency check it is written into the cell and the search recurses;
      a success is passed on, and a failure writes 0 back into the cell. */
  method TryValue(grid: array2<int>, domain: seq<int>, r: nat, c: nat, value: int)
    returns (result: Option<array2<int>>)
    requires grid.Length0 == 9 && grid.Length1 == 9 && r < 9 && c < 9
    requires Snapshot(grid)[r][c] == 0 && value in domain
    modifies grid
    decreases ZeroCount(Snapshot(grid)), 0
    ensures result.Some? ==>
      result.value == grid && IsAssignmentComplete(Snapshot(grid)) &&
      Fills(old(Snapshot(grid)), Snapshot(grid), domain)
    ensures result.Some? && old(NoConflicts(Snapshot(grid))) ==> NoConflicts(Snapshot(grid))
    ensures result.None? ==> Snapshot(grid) == old(Snapshot(grid))
    ensures result.None? ==> RuledOut(old(Snapshot(grid)), domain, r, c, [value])
  {
    ghost var b0 := Snapshot(grid);
    if !CheckAssignmentConsistency(Snapshot(grid), r, c, value) {
      InconsistentValueRuledOut(b0, domain, r, c, value);
      return None;
    }
    SetCell(grid, r, c, value);
    ZeroCountAssign(b0, r, c, value);
    result := RecursiveBacktracking(grid, domain);
    if result.Some? {
      FillsAfterWrite(b0, Snapshot(grid), domain, r, c, value);
      if NoConflicts(b0) {
        ConsistentWriteKeepsNoConflicts(b0, r, c, value);
      }
      return;
    }
    FailedValueRuledOut(b0, domain, r, c, value);
    SetCell(grid, r, c, 0);
    AssignUndo(b0, r, c, value);
  }

  /** The search of the script's entry point: the values 1..9 in increasing order. A grid it
      returns on a conflict-free entry grid of values in 0..9 is a solved Sudoku that keeps every
      given; when it returns nothing, the grid is as it was and no solution exists. */
  method SolveSudoku(grid: array2<int>) returns (result: Option<array2<int>>)
    requires grid.Length0 == 9 && grid.Length1 == 9
    modifies grid
    ensures result.Some? ==>
      result.value == grid && IsAssignmentComplete(Snapshot(grid)) &&
      Fills(old(Snapshot(grid)), Snapshot(grid), SudokuDomain)
    ensures result.Some? && old(NoConflicts(Snapshot(grid))) && old(CellsInRange(Snapshot(grid))) ==>
      IsSudokuSolution(Snapshot(grid))
    ensures result.None? ==> Snapshot(grid) == old(Snapshot(grid))
    ensures result.None? ==> !HasCompletion(old(Snapshot(grid)), SudokuDomain)
  {
    ghost var b0 := Snapshot(grid);
    result := RecursiveBacktracking(grid, SudokuDomain);
    if result.Some? && NoConflicts(b0) && CellsInRange(b0) {
      SolvedGridIsSudoku(Snapshot(grid));
    }
  }
}
