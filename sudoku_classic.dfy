/** The naive backtracking solver nested in run_classic_backtracking_solver
    (Question3/Q3.py): cells are filled in row-major order, each blank taking
    the first digit that does not yet occur in its row, column or block, and
    reset to 0 when the rest of the grid cannot be completed. The grid is
    modified in place. */
module ClassicSolver {
  import opened SudokuGrid
  import SudokuSolver

  /** The grid size M of the source. */
  const M := 9

  /** Every cell holds a digit 0..9 (0 = blank), as the puzzle string gives. */
  predicate DigitCells(g: seq<int>) {
    |g| == 81 && forall k :: 0 <= k < 81 ==> 0 <= g[k] <= 9
  }

  /** num occurs nowhere in the row, column or block of (row, col). */
  ghost predicate Free(g: seq<int>, row: int, col: int, num: int)
    requires |g| == 81
  {
    forall i, j :: InGrid(i, j) && InUnit(row, col, i, j) ==> g[Idx(i, j)] != num
  }

  /** Cells before position `from`, and cells that were not blank in g0, are as in g0. */
  ghost predicate Untouched(g0: seq<int>, g: seq<int>, from: int) {
    |g0| == 81 && |g| == 81 &&
    forall k :: 0 <= k < 81 && (k < from || g0[k] != 0) ==> g[k] == g0[k]
  }

  /** From position `from` on, every cell is filled, and every cell that was
      blank in g0 clashes with no other cell of its row, column or block. */
  ghost predicate SolvedFrom(g0: seq<int>, g: seq<int>, from: int) {
    |g0| == 81 && |g| == 81 &&
    forall i, j :: InGrid(i, j) && Idx(i, j) >= from ==>
      g[Idx(i, j)] != 0 && (g0[Idx(i, j)] == 0 ==> Safe(g, i, j))
  }

  /** is_valid(grid, row, col, num): num is not in the row, the column or the block. */
  method IsValid(grid: array<int>, row: int, col: int, num: int) returns (valid: bool)
    requires grid.Length == 81 && InGrid(row, col)
    ensures valid <==> Free(grid[..], row, col, num)
  {
    for x := 0 to 9
      invariant forall y :: 0 <= y < x ==> grid[Idx(row, y)] != num && grid[Idx(y, col)] != num
    {
      if grid[Idx(row, x)] == num || grid[Idx(x, col)] == num {
        return false;
      }
    }
    var startRow := row - row % 3;
    var startCol := col - col % 3;
    for i := 0 to 3
      invariant forall p, q :: startRow <= p < startRow + i && startCol <= q < startCol + 3 ==>
        grid[Idx(p, q)] != num
    {
      for j := 0 to 3
        invariant forall p, q ::
          ((startRow <= p < startRow + i && startCol <= q < startCol + 3) ||
           (p == startRow + i && startCol <= q < startCol + j)) ==> grid[Idx(p, q)] != num
      {
        if grid[Idx(i + startRow, j + startCol)] == num {
          return false;
        }
      }
    }
    forall i, j | InGrid(i, j) && InUnit(row, col, i, j) ensures grid[..][Idx(i, j)] != num {
      if i != row && j != col {
        assert startRow <= i < startRow + 3 && startCol <= j < startCol + 3;
      }
    }
    return true;
  }

  /** Assigning a free digit at position `pos` and completing the rest keeps
      the earlier cells and makes the new cell clash with nothing. */
  lemma AssignedStep(g0: seq<int>, g1: seq<int>, g2: seq<int>, r: int, c: int, num: int)
    requires |g0| == 81 && InGrid(r, c) && g0[Idx(r, c)] == 0 && 1 <= num <= 9
    requires Free(g0, r, c, num) && g1 == g0[Idx(r, c) := num]
    requires Untouched(g1, g2, Idx(r, c) + 1) && SolvedFrom(g1, g2, Idx(r, c) + 1)
    ensures Untouched(g0, g2, Idx(r, c)) && SolvedFrom(g0, g2, Idx(r, c))
  {
    var pos := Idx(r, c);
    assert g2[pos] == num;
    forall i, j | InGrid(i, j) && InUnit(r, c, i, j) && (i != r || j != c)
      ensures g2[Idx(i, j)] != g2[Idx(r, c)]
    {
      IdxInjective(i, j, r, c);
      var k := Idx(i, j);
      if k < pos + 1 || g1[k] != 0 {
        assert g2[k] == g1[k] == g0[k];
      } else {
        assert Safe(g2, i, j);
        assert InUnit(i, j, r, c);
      }
    }
    assert Safe(g2, r, c);
    forall i, j | InGrid(i, j) && Idx(i, j) >= pos
      ensures g2[Idx(i, j)] != 0 && (g0[Idx(i, j)] == 0 ==> Safe(g2, i, j))
    {
      if Idx(i, j) != pos {
        IdxInjective(i, j, r, c);
      } else {
        IdxCoords(i, j);
        IdxCoords(r, c);
      }
    }
  }

  /** backtrack(grid, row, col): on True every cell from (row, col) on is filled
      and every cell it filled clashes with no other cell; on False the grid is
      as at entry; in both cases no given and no earlier cell changes. */
  method Backtrack(grid: array<int>, row: int, col: int) returns (ok: bool)
    requires grid.Length == 81 && 0 <= row < M && 0 <= col <= M && DigitCells(grid[..])
    modifies grid
    decreases 81 - (9 * row + col)
    ensures DigitCells(grid[..])
    ensures Untouched(old(grid[..]), grid[..], 9 * row + col)
    ensures !ok ==> grid[..] == old(grid[..])
    ensures ok ==> SolvedFrom(old(grid[..]), grid[..], 9 * row + col)
  {
    if row == M - 1 && col == M {
      return true;
    }
    var r, c := row, col;
    if c == M {
      r := r + 1;
      c := 0;
    }
    ghost var g0 := grid[..];
    if grid[Idx(r, c)] > 0 {
      ok := Backtrack(grid, r, c + 1);
      return;
    }
    for num := 1 to M + 1
      invariant grid[..] == g0
    {
      var valid := IsValid(grid, r, c, num);
      if valid {
        grid[Idx(r, c)] := num;
        ghost var g1 := grid[..];
        var done := Backtrack(grid, r, c + 1);
        if done {
          AssignedStep(g0, g1, grid[..], r, c, num);
          return true;
        }
        grid[Idx(r, c)] := 0;
        assert grid[..] == g0;
      }
    }
    return false;
  }

  /** When the givens of g0 do not clash with each other, a grid that keeps
      them and is solved from position 0 is a valid solution. */
  lemma SolvedIsSolution(g0: seq<int>, g: seq<int>)
    requires DigitCells(g0) && DigitCells(g)
    requires Untouched(g0, g, 0) && SolvedFrom(g0, g, 0)
    requires NoClash(g0)
    ensures ValidSolution(g)
  {
    forall p, q | InGrid(p, q) ensures 1 <= g[Idx(p, q)] <= 9 && Safe(g, p, q) {
      if g0[Idx(p, q)] != 0 {
        forall i, j | InGrid(i, j) && InUnit(p, q, i, j) && (i != p || j != q)
          ensures g[Idx(i, j)] != g[Idx(p, q)]
        {
          if g0[Idx(i, j)] == 0 {
            assert Safe(g, i, j);
            assert InUnit(i, j, p, q);
          }
        }
      }
    }
  }

  /** The grid read from the puzzle string, cell by cell. */
  function PuzzleGrid(puzzle: string): (g: seq<int>)
    requires SudokuSolver.IsPuzzle(puzzle)
    ensures DigitCells(g)
  {
    seq(81, k requires 0 <= k < 81 => SudokuSolver.DigitValue(puzzle[k]))
  }

  /** run_classic_backtracking_solver without its timing and printing: read
      the grid from the puzzle string and run backtrack from (0, 0). When the
      givens do not clash, a success is a valid solution. */
  method RunClassicBacktrackingSolver(puzzle: string) returns (solved: bool, grid: array<int>)
    requires SudokuSolver.IsPuzzle(puzzle)
    ensures grid.Length == 81 && DigitCells(grid[..])
    ensures forall k :: 0 <= k < 81 && puzzle[k] != '0' ==> grid[k] == SudokuSolver.DigitValue(puzzle[k])
    ensures !solved ==> forall k :: 0 <= k < 81 ==> grid[k] == SudokuSolver.DigitValue(puzzle[k])
    ensures solved ==> forall i, j :: InGrid(i, j) ==> grid[Idx(i, j)] != 0
    ensures solved ==> forall i, j :: InGrid(i, j) && puzzle[Idx(i, j)] == '0' ==> Safe(grid[..], i, j)
    ensures solved && NoClash(PuzzleGrid(puzzle)) ==> ValidSolution(grid[..])
  {
    grid := new int[81](_ => 0);
    var idx := 0;
    for i := 0 to 9
      invariant idx == 9 * i
      invariant forall k :: 0 <= k < idx ==> grid[k] == SudokuSolver.DigitValue(puzzle[k])
      invariant forall k :: idx <= k < 81 ==> grid[k] == 0
    {
      for j := 0 to 9
        invariant idx == 9 * i + j
        invariant forall k :: 0 <= k < idx ==> grid[k] == SudokuSolver.DigitValue(puzzle[k])
        invariant forall k :: idx <= k < 81 ==> grid[k] == 0
      {
        grid[Idx(i, j)] := SudokuSolver.DigitValue(puzzle[idx]);
        idx := idx + 1;
      }
    }
    assert grid[..] == PuzzleGrid(puzzle);
    ghost var g0 := grid[..];
    solved := Backtrack(grid, 0, 0);
    if solved && NoClash(g0) {
      SolvedIsSolution(g0, grid[..]);
    }
  }
}
