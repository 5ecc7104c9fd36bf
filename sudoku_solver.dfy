/** The forward-checking search of Question3/Q3.py ("MY SOLUTION"): building
    the two grids from the puzzle string, MRV selection, the completeness
    test, propagation with its change record, undo, and the recursive
    backtracking search, all working in place on the two arrays. */
module SudokuSolver {
  import opened SudokuGrid

  datatype Option<T> = None | Some(value: T)

  /** The shape prepare_your_solver_data expects: 81 characters, each a digit. */
  predicate IsPuzzle(puzzle: string) {
    |puzzle| == 81 && forall k :: 0 <= k < 81 ==> '0' <= puzzle[k] <= '9'
  }

  /** int(ch) for a digit character. */
  function DigitValue(ch: char): (v: int)
    requires '0' <= ch <= '9'
    ensures 0 <= v <= 9 && (v == 0 <==> ch == '0')
  {
    ch as int - '0' as int
  }

  /** The entry preparation gives a cell: the marker for a given,
      the full candidate set for a blank. */
  function PreparedEntry(ch: char): (e: Entry)
    requires '0' <= ch <= '9'
    ensures e.Dom? <==> ch == '0'
  {
    if DigitValue(ch) != 0 then Assigned else Dom(Digits)
  }

  /** prepare_your_solver_data: every cell holds the digit at its index; a
      given carries the marker and a blank the full set {1..9}. Givens are
      not pruned from their peers. */
  method PrepareYourSolverData(puzzle: string) returns (grid: array<int>, domainGrid: array<Entry>)
    requires IsPuzzle(puzzle)
    ensures fresh(grid) && fresh(domainGrid)
    ensures grid.Length == 81 && domainGrid.Length == 81
    ensures forall k :: 0 <= k < 81 ==> grid[k] == DigitValue(puzzle[k])
    ensures forall k :: 0 <= k < 81 ==> domainGrid[k] == PreparedEntry(puzzle[k])
    ensures forall k :: 0 <= k < 81 ==> (puzzle[k] == '0' ==> domainGrid[k] == Dom(Digits))
    ensures forall k :: 0 <= k < 81 ==> (puzzle[k] != '0' ==> domainGrid[k] == Assigned)
    ensures Consistent(grid[..], domainGrid[..])
  {
    grid := new int[81](_ => 0);
    domainGrid := new Entry[81](_ => Dom(Digits));
    var index := 0;
    for row := 0 to 9
      invariant index == 9 * row
      invariant forall k :: 0 <= k < index ==> grid[k] == DigitValue(puzzle[k])
      invariant forall k :: 0 <= k < index ==> domainGrid[k] == PreparedEntry(puzzle[k])
      invariant forall k :: index <= k < 81 ==> domainGrid[k] == Dom(Digits)
    {
      for col := 0 to 9
        invariant index == 9 * row + col
        invariant forall k :: 0 <= k < index ==> grid[k] == DigitValue(puzzle[k])
        invariant forall k :: 0 <= k < index ==> domainGrid[k] == PreparedEntry(puzzle[k])
        invariant forall k :: index <= k < 81 ==> domainGrid[k] == Dom(Digits)
      {
        grid[Idx(row, col)] := DigitValue(puzzle[index]);
        if grid[Idx(row, col)] != 0 {
          domainGrid[Idx(row, col)] := Assigned;
        }
        index := index + 1;
      }
    }
  }

  /** pick_next_variable: the first cell in row-major order whose set has the
      fewest candidates among sets of size strictly between 0 and 9; None when
      there is no such set (empty and full sets are never chosen). */
  method PickNextVariable(domains: array<Entry>) returns (chosen: Option<(int, int)>)
    requires domains.Length == 81
    ensures chosen.None? <==> forall k :: 0 <= k < 81 ==> !Eligible(domains[k])
    ensures chosen.Some? ==>
      InGrid(chosen.value.0, chosen.value.1) &&
      Eligible(domains[Idx(chosen.value.0, chosen.value.1)])
    ensures chosen.Some? ==> forall k :: 0 <= k < 81 && Eligible(domains[k]) ==>
      |domains[Idx(chosen.value.0, chosen.value.1)].s| <= |domains[k].s|
    ensures chosen.Some? ==> forall k :: 0 <= k < Idx(chosen.value.0, chosen.value.1) && Eligible(domains[k]) ==>
      |domains[Idx(chosen.value.0, chosen.value.1)].s| < |domains[k].s|
  {
    var smallest := 9;
    chosen := None;
    for i := 0 to 9
      invariant chosen.None? ==> smallest == 9 && forall k :: 0 <= k < 9 * i ==> !Eligible(domains[k])
      invariant chosen.Some? ==>
        InGrid(chosen.value.0, chosen.value.1) && Idx(chosen.value.0, chosen.value.1) < 9 * i &&
        domains[Idx(chosen.value.0, chosen.value.1)].Dom? &&
        0 < smallest == |domains[Idx(chosen.value.0, chosen.value.1)].s| < 9
      invariant chosen.Some? ==> forall k :: 0 <= k < 9 * i && Eligible(domains[k]) ==> smallest <= |domains[k].s|
      invariant chosen.Some? ==> forall k :: 0 <= k < Idx(chosen.value.0, chosen.value.1) && Eligible(domains[k]) ==>
        smallest < |domains[k].s|
    {
      for j := 0 to 9
        invariant chosen.None? ==> smallest == 9 && forall k :: 0 <= k < 9 * i + j ==> !Eligible(domains[k])
        invariant chosen.Some? ==>
          InGrid(chosen.value.0, chosen.value.1) && Idx(chosen.value.0, chosen.value.1) < 9 * i + j &&
          domains[Idx(chosen.value.0, chosen.value.1)].Dom? &&
          0 < smallest == |domains[Idx(chosen.value.0, chosen.value.1)].s| < 9
        invariant chosen.Some? ==> forall k :: 0 <= k < 9 * i + j && Eligible(domains[k]) ==> smallest <= |domains[k].s|
        invariant chosen.Some? ==> forall k :: 0 <= k < Idx(chosen.value.0, chosen.value.1) && Eligible(domains[k]) ==>
          smallest < |domains[k].s|
      {
        var entry := domains[Idx(i, j)];
        if entry.Dom? && 0 < |entry.s| < smallest {
          smallest := |entry.s|;
          chosen := Some((i, j));
        }
      }
    }
  }

  /** is_filled: true exactly when no entry of the domain grid is a set. */
  method IsFilled(domains: array<Entry>) returns (filled: bool)
    requires domains.Length == 81
    ensures filled <==> Filled(domains[..])
  {
    for i := 0 to 9
      invariant forall k :: 0 <= k < 9 * i ==> !domains[k].Dom?
    {
      for j := 0 to 9
        invariant forall k :: 0 <= k < 9 * i + j ==> !domains[k].Dom?
      {
        if domains[Idx(i, j)].Dom? {
          return false;
        }
      }
    }
    return true;
  }

  // ---------------------------------------------------------------------
  // Ghost bookkeeping for the loops of apply_forward_check

  /** The grid d with n pruned from the entries at the indices in t. */
  ghost function PruneOn(d: seq<Entry>, t: set<int>, n: int): (e: seq<Entry>)
    requires |d| == 81
    ensures |e| == 81
  {
    seq(81, k requires 0 <= k < 81 => if k in t then Prune(d[k], n) else d[k])
  }

  /** The indices in t whose entry in d holds n. */
  ghost function HoldersIn(d: seq<Entry>, t: set<int>, n: int): set<int>
    requires |d| == 81
  {
    set k | k in t && 0 <= k < 81 && Holds(d[k], n)
  }

  /** Cells visited by the first i rounds of the row/column loop. */
  ghost function RowColVisited(row: int, col: int, i: int): set<int> {
    set k | 0 <= k < 81 && ((k / 9 == row && k % 9 < i) || (k % 9 == col && k / 9 < i))
  }

  /** Cells visited by the block loop before cell (r, c). */
  ghost function BlockVisited(startR: int, startC: int, r: int, c: int): set<int> {
    set k | 0 <= k < 81 &&
      ((startR <= k / 9 < r && startC <= k % 9 < startC + 3) || (k / 9 == r && startC <= k % 9 < c))
  }

  /** The whole row, column and block of (row, col). */
  ghost function UnitCells(row: int, col: int): set<int> {
    set k | 0 <= k < 81 && InUnit(row, col, k / 9, k % 9)
  }

  lemma RowColStep(row: int, col: int, i: int)
    requires InGrid(row, col) && 0 <= i < 9
    ensures RowColVisited(row, col, i) + {Idx(row, i)} + {Idx(i, col)} == RowColVisited(row, col, i + 1)
  {
    IdxCoords(row, i);
    IdxCoords(i, col);
  }

  lemma BlockStep(startR: int, startC: int, r: int, c: int)
    requires 0 <= startR <= 6 && 0 <= startC <= 6
    requires startR <= r < startR + 3 && startC <= c < startC + 3
    ensures BlockVisited(startR, startC, r, c) + {Idx(r, c)} == BlockVisited(startR, startC, r, c + 1)
  {
    IdxCoords(r, c);
  }

  lemma BlockRowDone(startR: int, startC: int, r: int)
    requires startR <= r
    ensures BlockVisited(startR, startC, r, startC + 3) == BlockVisited(startR, startC, r + 1, startC)
  {
  }

  /** The row/column loop and the block loop together visit exactly the
      row, column and block of (row, col). */
  lemma VisitedIsUnit(row: int, col: int)
    requires InGrid(row, col)
    ensures RowColVisited(row, col, 9) + BlockVisited((row / 3) * 3, (col / 3) * 3, (row / 3) * 3 + 3, (col / 3) * 3)
      == UnitCells(row, col)
  {
  }

  /** The pruned grid at the end of apply_forward_check is Forward, and its
      holders are Affected. */
  lemma PruneOnUnitIsForward(d: seq<Entry>, row: int, col: int, n: int)
    requires |d| == 81 && InGrid(row, col)
    ensures PruneOn(d[Idx(row, col) := Assigned], UnitCells(row, col), n) == Forward(d, row, col, n)
    ensures HoldersIn(d[Idx(row, col) := Assigned], UnitCells(row, col), n) == Affected(d, row, col, n)
  {
    IdxCoords(row, col);
  }

  lemma CellsAppend(changes: seq<Change>, ch: Change)
    requires AllInGrid(changes) && InGrid(ch.row, ch.col)
    ensures AllInGrid(changes + [ch])
    ensures Cells(changes + [ch]) == Cells(changes) + {Idx(ch.row, ch.col)}
  {
    var all := changes + [ch];
    assert AllInGrid(all);
    forall x | x in Cells(all) ensures x in Cells(changes) + {Idx(ch.row, ch.col)} {
      var t :| 0 <= t < |all| && x == Idx(all[t].row, all[t].col);
      if t < |changes| {
        assert all[t] == changes[t];
      }
    }
    forall x | x in Cells(changes) ensures x in Cells(all) {
      var t :| 0 <= t < |changes| && x == Idx(changes[t].row, changes[t].col);
      assert all[t] == changes[t];
    }
    assert all[|changes|] == ch;
  }

  /** One visit of the propagation loop: prune cell k if it holds n, and record it. */
  method PruneCell(domains: array<Entry>, r: int, c: int, number: int, affected: seq<Change>,
                   ghost start: seq<Entry>, ghost visited: set<int>)
    returns (affected': seq<Change>, ghost visited': set<int>)
    requires domains.Length == 81 && |start| == 81 && InGrid(r, c)
    requires domains[..] == PruneOn(start, visited, number)
    requires AllInGrid(affected) && (forall ch :: ch in affected ==> ch.val == number)
    requires Cells(affected) == HoldersIn(start, visited, number) && NoRepeatedCell(affected)
    modifies domains
    ensures visited' == visited + {Idx(r, c)}
    ensures domains[..] == PruneOn(start, visited', number)
    ensures AllInGrid(affected') && (forall ch :: ch in affected' ==> ch.val == number)
    ensures Cells(affected') == HoldersIn(start, visited', number) && NoRepeatedCell(affected')
  {
    var k := Idx(r, c);
    visited' := visited + {k};
    affected' := affected;
    if domains[k].Dom? && number in domains[k].s {
      domains[k] := Dom(domains[k].s - {number});
      affected' := affected + [Change(r, c, number)];
      CellsAppend(affected, Change(r, c, number));
    }
    assert domains[..] == PruneOn(start, visited', number);
    assert HoldersIn(start, visited', number) ==
      HoldersIn(start, visited, number) + (if k !in visited && Holds(start[k], number) then {k} else {});
  }

  /** The first loop of apply_forward_check: n leaves every set in row `row`
      and column `col`, recording each cell it left. */
  method PruneRowAndColumn(domains: array<Entry>, row: int, col: int, number: int, ghost start: seq<Entry>)
    returns (affected: seq<Change>, ghost visited: set<int>)
    requires domains.Length == 81 && InGrid(row, col) && domains[..] == start
    modifies domains
    ensures visited == RowColVisited(row, col, 9)
    ensures domains[..] == PruneOn(start, visited, number)
    ensures AllInGrid(affected) && (forall ch :: ch in affected ==> ch.val == number)
    ensures Cells(affected) == HoldersIn(start, visited, number) && NoRepeatedCell(affected)
  {
    affected := [];
    visited := {};
    assert domains[..] == PruneOn(start, visited, number);
    for i := 0 to 9
      invariant visited == RowColVisited(row, col, i)
      invariant domains[..] == PruneOn(start, visited, number)
      invariant AllInGrid(affected) && (forall ch :: ch in affected ==> ch.val == number)
      invariant Cells(affected) == HoldersIn(start, visited, number) && NoRepeatedCell(affected)
    {
      affected, visited := PruneCell(domains, row, i, number, affected, start, visited);
      affected, visited := PruneCell(domains, i, col, number, affected, start, visited);
      RowColStep(row, col, i);
    }
  }

  /** The second loop of apply_forward_check: n leaves every set in the 3x3
      block of (row, col), recording each cell it left. */
  method PruneBlock(domains: array<Entry>, row: int, col: int, number: int, affected: seq<Change>,
                    ghost start: seq<Entry>, ghost visited: set<int>)
    returns (affected': seq<Change>, ghost visited': set<int>)
    requires domains.Length == 81 && |start| == 81 && InGrid(row, col)
    requires domains[..] == PruneOn(start, visited, number)
    requires AllInGrid(affected) && (forall ch :: ch in affected ==> ch.val == number)
    requires Cells(affected) == HoldersIn(start, visited, number) && NoRepeatedCell(affected)
    modifies domains
    ensures visited' == visited + BlockVisited((row / 3) * 3, (col / 3) * 3, (row / 3) * 3 + 3, (col / 3) * 3)
    ensures domains[..] == PruneOn(start, visited', number)
    ensures AllInGrid(affected') && (forall ch :: ch in affected' ==> ch.val == number)
    ensures Cells(affected') == HoldersIn(start, visited', number) && NoRepeatedCell(affected')
  {
    var startR := (row / 3) * 3;
    var startC := (col / 3) * 3;
    affected', visited' := affected, visited;
    for r := startR to startR + 3
      invariant visited' == visited + BlockVisited(startR, startC, r, startC)
      invariant domains[..] == PruneOn(start, visited', number)
      invariant AllInGrid(affected') && (forall ch :: ch in affected' ==> ch.val == number)
      invariant Cells(affected') == HoldersIn(start, visited', number) && NoRepeatedCell(affected')
    {
      for c := startC to startC + 3
        invariant visited' == visited + BlockVisited(startR, startC, r, c)
        invariant domains[..] == PruneOn(start, visited', number)
        invariant AllInGrid(affected') && (forall ch :: ch in affected' ==> ch.val == number)
        invariant Cells(affected') == HoldersIn(start, visited', number) && NoRepeatedCell(affected')
      {
        affected', visited' := PruneCell(domains, r, c, number, affected', start, visited');
        BlockStep(startR, startC, r, c);
      }
      BlockRowDone(startR, startC, r);
    }
  }

  /** apply_forward_check: the cell takes the value and the marker, n leaves
      every set in its row, column and block, and the record lists each peer
      whose set held n, once. */
  method ApplyForwardCheck(board: array<int>, domains: array<Entry>, row: int, col: int, number: int)
    returns (affected: seq<Change>, savedDomain: Entry)
    requires board.Length == 81 && domains.Length == 81 && InGrid(row, col)
    modifies board, domains
    ensures board[..] == old(board[..])[Idx(row, col) := number]
    ensures domains[..] == Forward(old(domains[..]), row, col, number)
    ensures savedDomain == old(domains[Idx(row, col)])
    ensures AllInGrid(affected) && forall ch :: ch in affected ==> ch.val == number
    ensures Cells(affected) == Affected(old(domains[..]), row, col, number)
    ensures NoRepeatedCell(affected)
  {
    savedDomain := domains[Idx(row, col)];
    board[Idx(row, col)] := number;
    domains[Idx(row, col)] := Assigned;
    ghost var start := domains[..];
    ghost var visited;
    affected, visited := PruneRowAndColumn(domains, row, col, number, start);
    affected, visited := PruneBlock(domains, row, col, number, affected, start, visited);
    VisitedIsUnit(row, col);
    PruneOnUnitIsForward(old(domains[..]), row, col, number);
  }

  /** revert_changes: the cell is blank again with its saved entry, and each
      recorded value is added back to the recorded cell if it holds a set. */
  method RevertChanges(board: array<int>, domains: array<Entry>, changes: seq<Change>,
                       row: int, col: int, oldDomain: Entry)
    requires board.Length == 81 && domains.Length == 81 && InGrid(row, col)
    requires AllInGrid(changes)
    modifies board, domains
    ensures board[..] == old(board[..])[Idx(row, col) := 0]
    ensures domains[..] == Undo(old(domains[..])[Idx(row, col) := oldDomain], changes)
  {
    board[Idx(row, col)] := 0;
    domains[Idx(row, col)] := oldDomain;
    ghost var b1 := board[..];
    ghost var start := domains[..];
    for t := 0 to |changes|
      invariant board[..] == b1
      invariant AllInGrid(changes[..t])
      invariant domains[..] == Undo(start, changes[..t])
    {
      var ch := changes[t];
      assert ch in changes;
      var k := Idx(ch.row, ch.col);
      if domains[k].Dom? {
        domains[k] := Dom(domains[k].s + {ch.val});
      }
      assert changes[..t + 1][..t] == changes[..t];
    }
    assert changes[..|changes|] == changes;
  }

  /** solve_your: recursive search with assign-and-undo.
      On False the board and the domain grid are exactly as at entry.
      On True every set is gone, givens kept their values, and every blank
      cell holds a value drawn from the set it had at entry; and when at entry
      no filled cells clash and no set holds the value of a filled cell of its
      row, column or block, the board found is a valid solution. */
  method SolveYour(grid: array<int>, domains: array<Entry>) returns (solved: bool)
    requires grid.Length == 81 && domains.Length == 81
    requires Consistent(grid[..], domains[..])
    modifies grid, domains
    decreases DomCount(domains[..])
    ensures Consistent(grid[..], domains[..])
    ensures !solved ==> grid[..] == old(grid[..]) && domains[..] == old(domains[..])
    ensures solved ==> Filled(domains[..])
    ensures solved ==> KeepsGivens(old(grid[..]), grid[..]) && DrawnFrom(old(domains[..]), grid[..])
    ensures solved && NoClash(old(grid[..])) && Pruned(old(grid[..]), old(domains[..])) ==>
      ValidSolution(grid[..])
    ensures Filled(old(domains[..])) ==> solved
    ensures !Filled(old(domains[..])) && (forall k :: 0 <= k < 81 ==> !Eligible(old(domains[k]))) ==> !solved
  {
    var filled := IsFilled(domains);
    if filled {
      if NoClash(grid[..]) {
        FilledSolution(grid[..], domains[..]);
      }
      return true;
    }
    var nextVar := PickNextVariable(domains);
    if nextVar.None? {
      return false;
    }
    var (r, c) := nextVar.value;
    var options := domains[Idx(r, c)].s;
    ghost var b0 := grid[..];
    ghost var d0 := domains[..];
    var values := Ascending(options);
    AscendingSpec(options);
    for t := 0 to |values|
      invariant grid[..] == b0 && domains[..] == d0
    {
      var val := values[t];
      assert val in options;
      var changes, oldDom := ApplyForwardCheck(grid, domains, r, c, val);
      var conflict := Conflict(domains[..]);
      if !conflict {
        ForwardDomCount(d0, r, c, val);
        ForwardConsistent(b0, d0, r, c, val);
        if NoClash(b0) && Pruned(b0, d0) {
          ForwardNoClash(b0, d0, r, c, val);
          ForwardPruned(b0, d0, r, c, val);
        }
        var ok := SolveYour(grid, domains);
        if ok {
          SolvedAfterForward(b0, d0, r, c, val, grid[..]);
          return true;
        }
      }
      RevertChanges(grid, domains, changes, r, c, oldDom);
      RoundTrip(b0, d0, r, c, val, changes);
      assert grid[..] == b0;
    }
    return false;
  }

  /** The driver at the end of Question3/Q3.py: prepare the grids and run
      solve_your. As written (no initial propagation, and pick_next_variable
      never choosing a full set), it succeeds exactly when the puzzle has no
      blank, and in every case leaves the grid as given. */
  method RunYourSolver(puzzle: string) returns (solved: bool, grid: array<int>)
    requires IsPuzzle(puzzle)
    ensures solved <==> forall k :: 0 <= k < 81 ==> puzzle[k] != '0'
    ensures grid.Length == 81
    ensures forall k :: 0 <= k < 81 ==> grid[k] == DigitValue(puzzle[k])
  {
    var domainGrid;
    grid, domainGrid := PrepareYourSolverData(puzzle);
    assert |Digits| == 9;
    ghost var g0 := grid[..];
    solved := SolveYour(grid, domainGrid);
    if solved {
      forall k | 0 <= k < 81 ensures puzzle[k] != '0' {
        assert g0[k] != 0;
      }
    }
  }
}
