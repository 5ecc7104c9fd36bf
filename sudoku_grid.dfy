/** The board and domain store of the forward-checking solver in Question3/Q3.py.

    The source keeps two 9x9 lists of lists: the value grid and the domain grid.
    Here both are flat sequences (and, in the solver, arrays) of 81 cells in
    row-major order, cell (r, c) at index 9 * r + c, the same index that
    prepare_your_solver_data walks with its `index` counter.

    A domain-grid entry is either a candidate set or the integer marker 0,
    which the source uses for "assigned"; `Entry` says the same with two
    constructors. */
module SudokuGrid {

  datatype Entry = Assigned | Dom(s: set<int>)

  /** One record of the `affected` list built by apply_forward_check:
      (row, column, removed value). */
  datatype Change = Change(row: int, col: int, val: int)

  /** set(range(1, 10)) */
  const Digits: set<int> := {1, 2, 3, 4, 5, 6, 7, 8, 9}

  predicate InGrid(r: int, c: int) {
    0 <= r < 9 && 0 <= c < 9
  }

  function Idx(r: int, c: int): (k: int)
    requires InGrid(r, c)
    ensures 0 <= k < 81
  {
    9 * r + c
  }

  lemma IdxCoords(r: int, c: int)
    requires InGrid(r, c)
    ensures Idx(r, c) / 9 == r && Idx(r, c) % 9 == c
  {
  }

  lemma IdxInjective(i: int, j: int, p: int, q: int)
    requires InGrid(i, j) && InGrid(p, q) && (i != p || j != q)
    ensures Idx(i, j) != Idx(p, q)
  {
    IdxCoords(i, j);
    IdxCoords(p, q);
  }

  /** (i, j) lies in the row of (r, c), its column, or its 3x3 block
      (the cell itself included). */
  predicate InUnit(r: int, c: int, i: int, j: int) {
    i == r || j == c || (i / 3 == r / 3 && j / 3 == c / 3)
  }

  /** `number in domains[i][j]` where the entry is a set. */
  predicate Holds(e: Entry, n: int) {
    e.Dom? && n in e.s
  }

  /** What the pruning step does to one entry: remove n from a set that holds it. */
  function Prune(e: Entry, n: int): (p: Entry)
    ensures p.Dom? == e.Dom?
    ensures !Holds(p, n)
    ensures e.Dom? ==> p.s == e.s - {n}
  {
    if Holds(e, n) then Dom(e.s - {n}) else e
  }

  /** The domain grid after apply_forward_check(board, domains, r, c, n):
      the cell becomes the marker and n leaves every set in its row,
      column and block. */
  function Forward(d: seq<Entry>, r: int, c: int, n: int): (e: seq<Entry>)
    requires |d| == 81 && InGrid(r, c)
    ensures |e| == 81
  {
    seq(81, k requires 0 <= k < 81 =>
      if k == Idx(r, c) then Assigned
      else if InUnit(r, c, k / 9, k % 9) then Prune(d[k], n)
      else d[k])
  }

  /** The indices that apply_forward_check records: the peers of (r, c)
      whose set held n. */
  function Affected(d: seq<Entry>, r: int, c: int, n: int): (a: set<int>)
    requires |d| == 81 && InGrid(r, c)
    ensures forall k :: k in a ==> 0 <= k < 81 && k != Idx(r, c)
  {
    set k | 0 <= k < 81 && k != Idx(r, c) && InUnit(r, c, k / 9, k % 9) && Holds(d[k], n)
  }

  /** Every change names a cell of the grid. */
  predicate AllInGrid(changes: seq<Change>) {
    forall ch :: ch in changes ==> InGrid(ch.row, ch.col)
  }

  /** The flat indices named by a list of changes. */
  function Cells(changes: seq<Change>): (cells: set<int>)
    requires AllInGrid(changes)
    ensures forall k :: k in cells ==> 0 <= k < 81
  {
    set t | 0 <= t < |changes| :: Idx(changes[t].row, changes[t].col)
  }

  /** No cell occurs twice in a list of changes. */
  predicate NoRepeatedCell(changes: seq<Change>)
    requires AllInGrid(changes)
  {
    forall t1, t2 :: 0 <= t1 < t2 < |changes| ==>
      Idx(changes[t1].row, changes[t1].col) != Idx(changes[t2].row, changes[t2].col)
  }

  /** One step of the loop of revert_changes: add the value back to a cell
      that still holds a set. */
  function AddBack(d: seq<Entry>, ch: Change): (e: seq<Entry>)
    requires |d| == 81 && InGrid(ch.row, ch.col)
    ensures |e| == 81
  {
    var k := Idx(ch.row, ch.col);
    if d[k].Dom? then d[k := Dom(d[k].s + {ch.val})] else d
  }

  /** The domain grid after the loop of revert_changes over `changes`. */
  function Undo(d: seq<Entry>, changes: seq<Change>): (e: seq<Entry>)
    requires |d| == 81
    requires AllInGrid(changes)
    ensures |e| == 81
  {
    if changes == [] then d
    else AddBack(Undo(d, changes[..|changes| - 1]), changes[|changes| - 1])
  }

  /** Number of entries that still carry a set. */
  function DomCount(d: seq<Entry>): (n: nat)
    ensures n <= |d|
  {
    if d == [] then 0
    else DomCount(d[..|d| - 1]) + (if d[|d| - 1].Dom? then 1 else 0)
  }

  /** is_filled: no entry of the domain grid is a set. */
  predicate Filled(d: seq<Entry>) {
    forall k :: 0 <= k < |d| ==> !d[k].Dom?
  }

  /** The check after each propagation in solve_your: some set became empty.
      Such a grid is not filled and no board draws its values from it. */
  predicate Conflict(d: seq<Entry>)
    ensures Conflict(d) ==> !Filled(d)
    ensures Conflict(d) ==> forall b :: !DrawnFrom(d, b)
  {
    exists k :: 0 <= k < |d| && d[k].Dom? && d[k].s == {}
  }

  /** A cell pick_next_variable may choose: a set of size strictly between 0 and 9. */
  predicate Eligible(e: Entry) {
    e.Dom? && 0 < |e.s| < 9
  }

  /** The board and the domain grid agree: every cell holds 0..9, a cell is
      blank (0) exactly when it carries a set, and every set holds only
      digits 1..9. */
  predicate Consistent(b: seq<int>, d: seq<Entry>) {
    |b| == 81 && |d| == 81 &&
    forall k :: 0 <= k < 81 ==>
      0 <= b[k] <= 9 && (d[k].Dom? <==> b[k] == 0) && (d[k].Dom? ==> d[k].s <= Digits)
  }

  /** The candidates of a set, in the ascending order of sorted(options),
      for sets of digits. */
  function Ascending(s: set<int>): (vals: seq<int>)
  {
    AscendingFrom(s, 1)
  }

  function AscendingFrom(s: set<int>, v: int): (vals: seq<int>)
    requires 1 <= v <= 10
    decreases 10 - v
  {
    if v == 10 then []
    else (if v in s then [v] else []) + AscendingFrom(s, v + 1)
  }

  lemma {:induction false} AscendingFromSpec(s: set<int>, v: int)
    requires 1 <= v <= 10
    ensures forall t :: 0 <= t < |AscendingFrom(s, v)| ==> v <= AscendingFrom(s, v)[t] <= 9
    ensures forall t1, t2 :: 0 <= t1 < t2 < |AscendingFrom(s, v)| ==>
      AscendingFrom(s, v)[t1] < AscendingFrom(s, v)[t2]
    ensures forall x :: x in AscendingFrom(s, v) <==> x in s && v <= x <= 9
    decreases 10 - v
  {
    if v < 10 {
      AscendingFromSpec(s, v + 1);
    }
  }

  /** sorted(options) for a set of digits: strictly ascending, holding exactly
      the members of the set. */
  lemma AscendingSpec(s: set<int>)
    requires s <= Digits
    ensures forall t1, t2 :: 0 <= t1 < t2 < |Ascending(s)| ==> Ascending(s)[t1] < Ascending(s)[t2]
    ensures forall x :: x in Ascending(s) <==> x in s
  {
    AscendingFromSpec(s, 1);
    assert forall x :: x in Digits ==> 1 <= x <= 9;
  }

  // ---------------------------------------------------------------------
  // Properties of propagation and undo

  /** After Forward, the cell is the marker, no set in its row, column or
      block holds n, every other set only lost n, and no cell outside the
      row, column and block changed. */
  lemma ForwardEffect(d: seq<Entry>, r: int, c: int, n: int)
    requires |d| == 81 && InGrid(r, c)
    ensures Forward(d, r, c, n)[Idx(r, c)] == Assigned
    ensures forall i, j :: InGrid(i, j) && InUnit(r, c, i, j) ==> !Holds(Forward(d, r, c, n)[Idx(i, j)], n)
    ensures forall i, j :: InGrid(i, j) && !InUnit(r, c, i, j) ==> Forward(d, r, c, n)[Idx(i, j)] == d[Idx(i, j)]
    ensures forall k :: 0 <= k < 81 && k != Idx(r, c) ==>
      Forward(d, r, c, n)[k].Dom? == d[k].Dom? &&
      (d[k].Dom? ==> Forward(d, r, c, n)[k].s == d[k].s - {n} || Forward(d, r, c, n)[k].s == d[k].s)
  {
    forall i, j | InGrid(i, j)
      ensures InUnit(r, c, i, j) ==> !Holds(Forward(d, r, c, n)[Idx(i, j)], n)
      ensures !InUnit(r, c, i, j) ==> Forward(d, r, c, n)[Idx(i, j)] == d[Idx(i, j)]
    {
      IdxCoords(i, j);
    }
  }

  /** AddBack and Undo, cell by cell: each listed cell that carries a set
      gets n back, nothing else changes. */
  lemma {:induction false} UndoAt(d: seq<Entry>, changes: seq<Change>, n: int, k: int)
    requires |d| == 81 && 0 <= k < 81
    requires AllInGrid(changes) && forall ch :: ch in changes ==> ch.val == n
    ensures Undo(d, changes)[k] ==
      if k in Cells(changes) && d[k].Dom? then Dom(d[k].s + {n}) else d[k]
  {
    if changes != [] {
      var front := changes[..|changes| - 1];
      var last := changes[|changes| - 1];
      UndoAt(d, front, n, k);
      assert Cells(changes) == Cells(front) + {Idx(last.row, last.col)} by {
        forall x | x in Cells(changes) ensures x in Cells(front) + {Idx(last.row, last.col)} {
          var t :| 0 <= t < |changes| && x == Idx(changes[t].row, changes[t].col);
          if t < |changes| - 1 {
            assert front[t] == changes[t];
          }
        }
        forall x | x in Cells(front) ensures x in Cells(changes) {
          var t :| 0 <= t < |front| && x == Idx(front[t].row, front[t].col);
          assert changes[t] == front[t];
        }
        assert Idx(last.row, last.col) == Idx(changes[|changes| - 1].row, changes[|changes| - 1].col);
      }
    }
  }

  /** revert_changes exactly inverts apply_forward_check: resetting the cell
      gives back the board, and restoring the saved entry and adding n back
      to every recorded peer gives back the domain grid before the call. */
  lemma RoundTrip(b: seq<int>, d: seq<Entry>, r: int, c: int, n: int, changes: seq<Change>)
    requires |b| == 81 && |d| == 81 && InGrid(r, c) && b[Idx(r, c)] == 0 && d[Idx(r, c)].Dom?
    requires AllInGrid(changes) && forall ch :: ch in changes ==> ch.val == n
    requires Cells(changes) == Affected(d, r, c, n)
    ensures b[Idx(r, c) := n][Idx(r, c) := 0] == b
    ensures Undo(Forward(d, r, c, n)[Idx(r, c) := d[Idx(r, c)]], changes) == d
  {
    var f := Forward(d, r, c, n)[Idx(r, c) := d[Idx(r, c)]];
    forall k | 0 <= k < 81 ensures Undo(f, changes)[k] == d[k] {
      UndoAt(f, changes, n, k);
      if k in Affected(d, r, c, n) {
        assert d[k].s - {n} + {n} == d[k].s;
      }
    }
  }

  /** Two grids whose entries carry sets at the same places have the same count. */
  lemma {:induction false} DomCountSameShape(a: seq<Entry>, b: seq<Entry>)
    requires |a| == |b|
    requires forall k :: 0 <= k < |a| ==> a[k].Dom? == b[k].Dom?
    ensures DomCount(a) == DomCount(b)
  {
    if a != [] {
      DomCountSameShape(a[..|a| - 1], b[..|b| - 1]);
    }
  }

  /** Collapsing one set and keeping every other entry's kind lowers the count by one. */
  lemma {:induction false} DomCountCollapse(a: seq<Entry>, b: seq<Entry>, p: int)
    requires |a| == |b| && 0 <= p < |a|
    requires forall k :: 0 <= k < |a| && k != p ==> a[k].Dom? == b[k].Dom?
    requires a[p].Dom? && !b[p].Dom?
    ensures DomCount(b) == DomCount(a) - 1
  {
    var m := |a| - 1;
    if p == m {
      DomCountSameShape(a[..m], b[..m]);
    } else {
      DomCountCollapse(a[..m], b[..m], p);
    }
  }

  /** Forward assigns one blank cell: one set fewer. */
  lemma ForwardDomCount(d: seq<Entry>, r: int, c: int, n: int)
    requires |d| == 81 && InGrid(r, c) && d[Idx(r, c)].Dom?
    ensures DomCount(Forward(d, r, c, n)) == DomCount(d) - 1
  {
    ForwardEffect(d, r, c, n);
    DomCountCollapse(d, Forward(d, r, c, n), Idx(r, c));
  }

  /** Assigning a candidate of a blank cell keeps board and domain grid in step. */
  lemma ForwardConsistent(b: seq<int>, d: seq<Entry>, r: int, c: int, n: int)
    requires Consistent(b, d) && InGrid(r, c)
    requires Holds(d[Idx(r, c)], n)
    ensures Consistent(b[Idx(r, c) := n], Forward(d, r, c, n))
  {
    ForwardEffect(d, r, c, n);
  }

  /** No two filled cells of one row, column or block hold the same value. */
  ghost predicate NoClash(b: seq<int>) {
    |b| == 81 &&
    forall i, j, p, q ::
      (InGrid(i, j) && InGrid(p, q) && InUnit(p, q, i, j) && (i != p || j != q) &&
       b[Idx(i, j)] != 0 && b[Idx(p, q)] != 0) ==> b[Idx(i, j)] != b[Idx(p, q)]
  }

  /** No set holds the value of a filled cell of its row, column or block:
      the state forward checking keeps. */
  ghost predicate Pruned(b: seq<int>, d: seq<Entry>) {
    |b| == 81 && |d| == 81 &&
    forall i, j, p, q ::
      (InGrid(i, j) && InGrid(p, q) && InUnit(p, q, i, j) && (i != p || j != q) &&
       d[Idx(i, j)].Dom? && b[Idx(p, q)] != 0) ==> b[Idx(p, q)] !in d[Idx(i, j)].s
  }

  /** No other cell in the row, column or block of (p, q) has its value. */
  ghost predicate Safe(g: seq<int>, p: int, q: int)
    requires |g| == 81 && InGrid(p, q)
  {
    forall i, j :: InGrid(i, j) && InUnit(p, q, i, j) && (i != p || j != q) ==> g[Idx(i, j)] != g[Idx(p, q)]
  }

  /** A grid is a solution: every cell holds a digit 1..9 that no other cell
      of its row, column or block holds. */
  ghost predicate ValidSolution(g: seq<int>)
    requires |g| == 81
  {
    forall i, j :: InGrid(i, j) ==> 1 <= g[Idx(i, j)] <= 9 && Safe(g, i, j)
  }

  /** Assigning a candidate of a pruned blank cell creates no clash. */
  lemma ForwardNoClash(b: seq<int>, d: seq<Entry>, r: int, c: int, n: int)
    requires Consistent(b, d) && InGrid(r, c) && Holds(d[Idx(r, c)], n)
    requires NoClash(b) && Pruned(b, d)
    ensures NoClash(b[Idx(r, c) := n])
  {
    var b' := b[Idx(r, c) := n];
    forall i, j, p, q | InGrid(i, j) && InGrid(p, q) && InUnit(p, q, i, j) && (i != p || j != q) &&
      b'[Idx(i, j)] != 0 && b'[Idx(p, q)] != 0
      ensures b'[Idx(i, j)] != b'[Idx(p, q)]
    {
      IdxInjective(i, j, p, q);
      if i == r && j == c {
        IdxInjective(p, q, r, c);
        assert b[Idx(p, q)] !in d[Idx(i, j)].s;
      } else if p == r && q == c {
        IdxInjective(i, j, r, c);
        assert InUnit(i, j, p, q);
        assert b[Idx(i, j)] !in d[Idx(p, q)].s;
      } else {
        IdxInjective(i, j, r, c);
        IdxInjective(p, q, r, c);
      }
    }
  }

  /** Forward checking keeps the pruned state: after assigning n at (r, c)
      no set holds the value of a filled cell of its row, column or block. */
  lemma ForwardPruned(b: seq<int>, d: seq<Entry>, r: int, c: int, n: int)
    requires |b| == 81 && |d| == 81 && InGrid(r, c)
    requires Pruned(b, d)
    ensures Pruned(b[Idx(r, c) := n], Forward(d, r, c, n))
  {
    var b', f := b[Idx(r, c) := n], Forward(d, r, c, n);
    ForwardEffect(d, r, c, n);
    forall i, j, p, q | InGrid(i, j) && InGrid(p, q) && InUnit(p, q, i, j) && (i != p || j != q) &&
      f[Idx(i, j)].Dom? && b'[Idx(p, q)] != 0
      ensures b'[Idx(p, q)] !in f[Idx(i, j)].s
    {
      if p == r && q == c {
        assert !Holds(f[Idx(i, j)], n);
      } else {
        IdxInjective(p, q, r, c);
        IdxInjective(i, j, r, c);
      }
    }
  }

  /** A filled board without clashes, consistent with its domain grid, is a solution. */
  lemma FilledSolution(b: seq<int>, d: seq<Entry>)
    requires Consistent(b, d) && Filled(d) && NoClash(b)
    ensures ValidSolution(b)
  {
    forall p, q | InGrid(p, q) ensures 1 <= b[Idx(p, q)] <= 9 && Safe(b, p, q) {
      forall i, j | InGrid(i, j) && InUnit(p, q, i, j) && (i != p || j != q)
        ensures b[Idx(i, j)] != b[Idx(p, q)]
      {
        assert !d[Idx(i, j)].Dom? && !d[Idx(p, q)].Dom?;
      }
    }
  }

  /** Every given (non-zero cell) of b0 has the same value in b. */
  predicate KeepsGivens(b0: seq<int>, b: seq<int>) {
    |b0| == 81 && |b| == 81 && forall k :: 0 <= k < 81 && b0[k] != 0 ==> b[k] == b0[k]
  }

  /** Every cell that carried a set in d0 holds in b a value drawn from that set. */
  predicate DrawnFrom(d0: seq<Entry>, b: seq<int>) {
    |d0| == 81 && |b| == 81 && forall k :: 0 <= k < 81 && d0[k].Dom? ==> b[k] in d0[k].s
  }

  /** A solution found after assigning candidate n at (r, c) keeps the givens
      and draws every value from the domains before the assignment. */
  lemma SolvedAfterForward(b0: seq<int>, d0: seq<Entry>, r: int, c: int, n: int, b: seq<int>)
    requires Consistent(b0, d0) && InGrid(r, c) && Holds(d0[Idx(r, c)], n)
    requires KeepsGivens(b0[Idx(r, c) := n], b) && DrawnFrom(Forward(d0, r, c, n), b)
    ensures KeepsGivens(b0, b) && DrawnFrom(d0, b)
  {
    ForwardEffect(d0, r, c, n);
  }
}
