/** The rules of Sudoku that the solver's module comment lays down: no two cells of the same row,
    the same column or the same 3×3 block hold the same number. */
module Rules {
  import opened Grid

  /** Two different cells that the rules tie together: same row, same column or same block. */
  predicate Peers(i: int, j: int, i': int, j': int) {
    (i, j) != (i', j') && (i == i' || j == j' || (i / 3 == i' / 3 && j / 3 == j' / 3))
  }

  /** No assigned value is repeated among peers. Unassigned (0) cells never conflict. */
  ghost predicate NoConflicts(b: Board)
    requires IsGrid(b)
  {
    forall i, j, i', j' {:trigger Peers(i, j, i', j')} ::
      (0 <= i < 9 && 0 <= j < 9 && 0 <= i' < 9 && 0 <= j' < 9 &&
       Peers(i, j, i', j') && b[i][j] != 0) ==> b[i][j] != b[i'][j']
  }

  /** Every cell holds a value in 0..9, 0 meaning unassigned. */
  ghost predicate CellsInRange(b: Board)
    requires IsGrid(b)
  {
    forall i, j :: 0 <= i < 9 && 0 <= j < 9 ==> 0 <= b[i][j] <= 9
  }

  ghost predicate Distinct(s: seq<int>) {
    forall p, q :: 0 <= p < q < |s| ==> s[p] != s[q]
  }

  /** Nine cells that hold each of 1..9 exactly once. */
  ghost predicate EachDigitOnce(s: seq<int>) {
    |s| == 9 && Distinct(s) && forall v :: 1 <= v <= 9 ==> v in s
  }

  /** A solved Sudoku: every row, column and block holds each of 1..9 exactly once. */
  ghost predicate IsSudokuSolution(b: Board) {
    IsGrid(b) &&
    (forall r :: 0 <= r < 9 ==> EachDigitOnce(RowValues(b, r))) &&
    (forall c :: 0 <= c < 9 ==> EachDigitOnce(ColumnValues(b, c))) &&
    (forall r, c :: 0 <= r < 9 && 0 <= c < 9 ==> EachDigitOnce(BlockValues(b, r, c)))
  }

  lemma {:induction false} DistinctCard(s: seq<int>)
    requires Distinct(s)
    ensures |set x | x in s| == |s|
  {
    if s != [] {
      assert Distinct(s[1..]) by {
        forall p, q | 0 <= p < q < |s[1..]| ensures s[1..][p] != s[1..][q] {
          assert s[1..][p] == s[p + 1] && s[1..][q] == s[q + 1];
        }
      }
      DistinctCard(s[1..]);
      assert s[0] !in s[1..] by {
        forall p | 0 <= p < |s[1..]| ensures s[1..][p] != s[0] {
          assert s[1..][p] == s[p + 1];
        }
      }
      assert (set x | x in s) == {s[0]} + (set x | x in s[1..]);
    }
  }

  /** The set {1, ..., n}. */
  ghost function Digits(n: nat): (d: set<int>)
    ensures |d| == n
    ensures forall v :: v in d <==> 1 <= v <= n
  {
    if n == 0 then {} else Digits(n - 1) + {n}
  }

  lemma SubsetOfSameSize(a: set<int>, b: set<int>)
    requires a <= b && |a| == |b|
    ensures a == b
  {
    assert a * (b - a) == {};
    assert b == a + (b - a);
    assert |b - a| == 0;
  }

  /** Nine distinct values drawn from 1..9 are all of 1..9. */
  lemma Pigeonhole(s: seq<int>)
    requires |s| == 9 && Distinct(s)
    requires forall k :: 0 <= k < 9 ==> 1 <= s[k] <= 9
    ensures EachDigitOnce(s)
  {
    var present := set x | x in s;
    DistinctCard(s);
    assert present <= Digits(9) by {
      forall x | x in present ensures x in Digits(9) {
        var k :| 0 <= k < 9 && s[k] == x;
      }
    }
    SubsetOfSameSize(present, Digits(9));
    forall v | 1 <= v <= 9 ensures v in s {
      assert v in Digits(9);
      assert v in present;
    }
  }

  /** Two different positions of a block's row-major listing are two peer cells. */
  lemma BlockPositionsArePeers(r: nat, c: nat, p: nat, q: nat)
    requires r < 9 && c < 9 && p < q < 9
    ensures Peers(BlockStart(r) + p / 3, BlockStart(c) + p % 3, BlockStart(r) + q / 3, BlockStart(c) + q % 3)
  {
    var top, left := BlockStart(r), BlockStart(c);
    assert (top + p / 3) / 3 == top / 3 == (top + q / 3) / 3;
    assert (left + p % 3) / 3 == left / 3 == (left + q % 3) / 3;
    assert p == 3 * (p / 3) + p % 3 && q == 3 * (q / 3) + q % 3;
  }

  lemma RowIsDigits(b: Board, r: nat)
    requires IsGrid(b) && CellsInRange(b) && IsAssignmentComplete(b) && NoConflicts(b) && r < 9
    ensures EachDigitOnce(RowValues(b, r))
  {
    var row := RowValues(b, r);
    forall p, q | 0 <= p < q < 9 ensures row[p] != row[q] {
      assert Peers(r, p, r, q);
    }
    Pigeonhole(row);
  }

  lemma ColumnIsDigits(b: Board, c: nat)
    requires IsGrid(b) && CellsInRange(b) && IsAssignmentComplete(b) && NoConflicts(b) && c < 9
    ensures EachDigitOnce(ColumnValues(b, c))
  {
    var col := ColumnValues(b, c);
    forall p, q | 0 <= p < q < 9 ensures col[p] != col[q] {
      assert Peers(p, c, q, c);
    }
    Pigeonhole(col);
  }

  lemma BlockIsDigits(b: Board, r: nat, c: nat)
    requires IsGrid(b) && CellsInRange(b) && IsAssignmentComplete(b) && NoConflicts(b)
    requires r < 9 && c < 9
    ensures EachDigitOnce(BlockValues(b, r, c))
  {
    var block := BlockValues(b, r, c);
    var top, left := BlockStart(r), BlockStart(c);
    forall p, q | 0 <= p < q < 9 ensures block[p] != block[q] {
      BlockPositionsArePeers(r, c, p, q);
      BlockValuesAt(b, r, c, p);
      BlockValuesAt(b, r, c, q);
      assert 0 <= top + p / 3 < 9 && 0 <= left + p % 3 < 9;
      assert 0 <= top + q / 3 < 9 && 0 <= left + q % 3 < 9;
    }
    Pigeonhole(block);
  }

  /** A complete board in which no value repeats among peers, and whose cells stay in 0..9, is a
      solved Sudoku: each row, column and block holds each of 1..9 exactly once. */
  lemma SolvedGridIsSudoku(b: Board)
    requires IsGrid(b) && CellsInRange(b) && IsAssignmentComplete(b) && NoConflicts(b)
    ensures IsSudokuSolution(b)
  {
    forall r | 0 <= r < 9 ensures EachDigitOnce(RowValues(b, r)) {
      RowIsDigits(b, r);
    }
    forall c | 0 <= c < 9 ensures EachDigitOnce(ColumnValues(b, c)) {
      ColumnIsDigits(b, c);
    }
    forall r, c | 0 <= r < 9 && 0 <= c < 9 ensures EachDigitOnce(BlockValues(b, r, c)) {
      BlockIsDigits(b, r, c);
    }
  }
}
