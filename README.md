# Verified model of three search and scheduling exercises

This project models three small Python programs in Dafny and proves properties of the model.

- **Question3/Q3.py, the forward-checking Sudoku solver.**
  - The whole search is modelled: prepare the value grid and the domain grid from the puzzle string, pick the next cell by minimum remaining values (MRV), test whether the grid is complete, propagate an assignment to the cell's peers while recording every removal, undo that propagation, and search recursively with assign-and-undo.
  - The naive row-major backtracker nested in `run_classic_backtracking_solver` is modelled too.
  - Both solvers work in place on 81-cell arrays, one cell per index `9 * row + col`.
  - A domain-grid entry is `Assigned` (the source's marker `0`) or `Dom(set)`.
  - Modules: `SudokuGrid` (entries, the specification functions `Forward`, `Affected`, `Undo` and `DomCount`, and their lemmas), `SudokuSolver` and `ClassicSolver`.
- **Question2/Q2.py, the genetic-algorithm scheduler.**
  - A chromosome is a string of task digits `1`..`7` with facilities separated by `-`.
  - `ChromosomeText` models the Python string operations used: `split('-')`, `'-'.join`, `replace('-', '')` and clamped slicing.
  - `ScheduleFitness` holds the cost, time and capacity tables and `fitness_calculation`, which is proved equal to a segment-by-segment specification `Fitness`.
  - `GeneticOperators` holds `give_random_not_used`, `initialization`, `single_point_crossover` with `reconstruct`, and `swap_mutation`.
  - Every random draw is a parameter: the coin roll and the rate as `real`, the cut point, the sampled swap positions, the per-facility counts and the 100 tries of each `randint`.
- **Question1/Q1.py, the hill-climb peak search.**
  - Module `PeakSearch` models `query`, the three-way comparison `compare_three` with its tie policy, and the loop of `locate_peak`.

The model follows the code as written, not its comments.

- Despite the comment at Question3/Q3.py:2-3, preparation does no initial propagation.
- `pick_next_variable` starts from `smallest = 9`, so it never chooses a cell whose set still holds nine candidates.
- As a consequence, `solve_your` on a freshly prepared puzzle with any blank cell returns False at once. `SudokuSolver.RunYourSolver` proves this: it succeeds exactly when the puzzle has no `0`.
- The search machinery itself is proved for every consistent pair of grids, independently of that starting point: propagation, undo, failure restoring the state, and solutions drawing from the domains. From a state where no filled cells clash and no set holds a filled peer's value, a success is also a valid solution.

## Model

| member | source | states |
|---|---|---|
| SudokuSolver.DigitValue | Question3/Q3.py:35 | `int(ch)` of a digit character lies in 0..9 and is 0 exactly for `'0'` |
| SudokuSolver.PreparedEntry | Question3/Q3.py:30-37 | the prepared entry of a cell is a candidate set exactly when its character is `'0'` |
| SudokuSolver.PrepareYourSolverData | Question3/Q3.py:28-40 | new 81-cell grids: each cell holds the digit at its index; a blank gets the full set {1..9} and a given the marker, with no pruning of peers; board and domains are consistent |
| SudokuSolver.PickNextVariable | Question3/Q3.py:42-50 | None exactly when no entry is a set of size strictly between 0 and 9; otherwise the chosen cell is such a set, no such set is smaller, and every such set at an earlier row-major position is strictly larger (ties go to the first) |
| SudokuSolver.IsFilled | Question3/Q3.py:52-57 | true exactly when no entry of the domain grid is a set |
| SudokuSolver.PruneCell | Question3/Q3.py:67-69 | one check-and-remove step: the visited cells grow by this cell; the domain grid is the entry grid with `number` pruned from every visited cell; the record names exactly the visited cells whose set held `number`, each once |
| SudokuSolver.PruneRowAndColumn | Question3/Q3.py:66-72 | the row-and-column loop prunes `number` from exactly the cells of the row and the column and records exactly those whose set held it, each once |
| SudokuSolver.PruneBlock | Question3/Q3.py:74-80 | the block loop extends the pruning and the record from the cells visited so far to the whole 3x3 block, still recording each cell once |
| SudokuSolver.ApplyForwardCheck | Question3/Q3.py:59-82 | the board gets `number` at the cell and nothing else changes; the domain grid becomes `Forward` of the old one; the saved domain is the old entry; the record names exactly the peers whose set held `number`, each once, each with `number` |
| SudokuSolver.RevertChanges | Question3/Q3.py:84-89 | the cell is reset to 0 and its saved entry restored; the domain grid becomes `Undo` of that grid over the record |
| SudokuSolver.SolveYour | Question3/Q3.py:91-112 | terminates (one set fewer per recursion level); keeps board and domains consistent; on False both grids are exactly as at entry; on True no set remains, the givens are kept and each blank holds a value from its set at entry; on True from a state where no filled cells clash and no set holds a filled peer's value, the board is a valid solution; True when already filled; False when unfilled with no eligible cell |
| SudokuSolver.RunYourSolver | Question3/Q3.py:195-198 | on a prepared puzzle the search succeeds exactly when the puzzle has no blank, and the grid always ends as given |
| SudokuGrid.Prune | Question3/Q3.py:78-80 | pruning one entry keeps its kind, leaves it without `n`, and removes exactly `n` from a set |
| SudokuGrid.ForwardEffect | Question3/Q3.py:63-80 | after propagation the cell is the marker, no set in its row, column or block holds `n`, every other set lost at most `n`, and no cell outside the row, column and block changed |
| SudokuGrid.UndoAt | Question3/Q3.py:87-89 | the undo loop gives back `n` to each recorded cell that holds a set and changes no other cell |
| SudokuGrid.RoundTrip | Question3/Q3.py:59-89 | resetting the cell gives back the board before the assignment, and restoring the saved entry and undoing the record gives back exactly the domain grid before it |
| SudokuGrid.ForwardDomCount | Question3/Q3.py:64 | propagating at a blank cell removes exactly one set from the domain grid |
| SudokuGrid.ForwardConsistent | Question3/Q3.py:63-80 | assigning a candidate of a blank cell keeps board and domain grid in step (cells 0..9, blank iff set, sets of digits) |
| SudokuGrid.AscendingSpec | Question3/Q3.py:102 | `sorted(options)` of a set of digits is strictly ascending and holds exactly the set's members |
| SudokuGrid.SolvedAfterForward | Question3/Q3.py:103-108 | a solution found below an assignment keeps the givens and draws every value from the domains before the assignment |
| SudokuGrid.Conflict | Question3/Q3.py:104-105 | some entry is an empty set; such a grid is not filled, and no board draws its values from it, so the branch cannot lead to a solution |
| SudokuGrid.ForwardNoClash | Question3/Q3.py:63-80 | assigning a candidate of a blank cell in a grid where no set holds a filled peer's value creates no clash between filled cells |
| SudokuGrid.ForwardPruned | Question3/Q3.py:63-80 | after propagation no set holds the value of a filled cell of its row, column or block, the new cell included, if that held before |
| SudokuGrid.FilledSolution | Question3/Q3.py:92-93 | a filled board without clashes that agrees with its domain grid is a valid solution: every cell 1..9 and no peer with the same value |
| ClassicSolver.IsValid | Question3/Q3.py:155-165 | true exactly when `num` occurs in no cell of the row, the column and the block |
| ClassicSolver.AssignedStep | Question3/Q3.py:176-179 | placing a free digit and completing the rest of the grid yields a grid solved from that cell on, with earlier cells and givens unchanged |
| ClassicSolver.Backtrack | Question3/Q3.py:167-181 | never changes a given or an earlier cell; on False the grid is as at entry; on True every cell from the start position on is filled and each cell it filled clashes with no peer |
| ClassicSolver.SolvedIsSolution | Question3/Q3.py:167-181 | when the givens do not clash, a grid solved from position 0 that keeps them is a valid solution |
| ClassicSolver.RunClassicBacktrackingSolver | Question3/Q3.py:146-184 | the grid read from the puzzle keeps its givens; on failure it is the puzzle; on success every cell is filled, no filled blank clashes with a peer, and when the givens do not clash the grid is a valid solution |
| ClassicSolver.PuzzleGrid | Question3/Q3.py:148-153 | the grid read from the puzzle holds a digit 0..9 in every cell |
| ChromosomeText.Split | Question2/Q2.py:24 | `split('-')` gives one part more than there are dashes, no part holds a dash, and every character of a part comes from the string |
| ChromosomeText.Join | Question2/Q2.py:90 | `'-'.join` of a non-empty list is as long as the parts together plus one dash per gap between neighbours; SplitJoin and JoinSplit fix its contents |
| ChromosomeText.RemoveDashes | Question2/Q2.py:75-76 | `replace('-', '')` leaves no dash and removes exactly one character per dash |
| ChromosomeText.Lengths | Question2/Q2.py:77-78 | the lengths of the parts, one per part, sum to the length of the parts written together, so `sum(lengths)` counts the tasks |
| ChromosomeText.Sum | Question2/Q2.py:78 | the sum of non-negative lengths is never negative |
| ChromosomeText.JoinSplit | Question2/Q2.py:103-113 | joining the parts of a split with `-` gives the string back |
| ChromosomeText.SplitJoin | Question2/Q2.py:90 | splitting a join of dash-free parts gives the parts back |
| ChromosomeText.RemoveDashesIsFlatten | Question2/Q2.py:75-77 | `replace('-', '')` equals the parts of `split('-')` written one after another |
| ChromosomeText.TaskCount | Question2/Q2.py:75-78 | the number of tasks after removing dashes is the sum of the segment lengths |
| ChromosomeText.Take | Question2/Q2.py:82-83 | `s[:n]` has length `min(n, len(s))` |
| ChromosomeText.Drop | Question2/Q2.py:82-83 | `s[n:]` has length `len(s) - min(n, len(s))` |
| ChromosomeText.Slice | Question2/Q2.py:88 | `flat[idx:idx + l]` holds the characters of `flat` from `idx` on, as many as fit below `idx + l` after clamping both bounds to the length |
| ScheduleFitness.GetCostRequired | Question2/Q2.py:3-13 | each table cost lies between 7 and 16 |
| ScheduleFitness.GetTaskTime | Question2/Q2.py:15-17 | each task time lies between 3 and 9 |
| ScheduleFitness.GetFacilityCapacity | Question2/Q2.py:19-21 | each capacity lies between 24 and 30 |
| ScheduleFitness.TaskOf | Question2/Q2.py:32 | `int(task_char)` of a task digit is a task number 1..7 |
| ScheduleFitness.SegmentCost | Question2/Q2.py:31-37 | the cost of a segment lies between 7 and 16 per task |
| ScheduleFitness.SegmentTime | Question2/Q2.py:31-36 | the time of a segment lies between 3 and 9 per task |
| ScheduleFitness.OverflowPenalty | Question2/Q2.py:38-39 | the capacity penalty is never negative and is 0 exactly when the time fits the capacity |
| ScheduleFitness.TaskSet | Question2/Q2.py:27-35 | the set of used tasks holds only task numbers 1..7 |
| ScheduleFitness.ScanSegment | Question2/Q2.py:31-37 | the inner loop over one segment: the used set becomes the tasks seen so far; 1000 is added per task already seen; the segment's cost at its facility is added to the total; the facility time is the segment's time |
| ScheduleFitness.FitnessCalculation | Question2/Q2.py:23-42 | the loops compute exactly `Fitness`: total cost plus 1000 per repeated task, 100 per unit of overflow, and 1000 per task never used |
| ScheduleFitness.FitnessOfSegments | Question2/Q2.py:23-42 | the fitness is the cost plus the penalty, never below the cost, which is never negative |
| ScheduleFitness.RepeatsAndDistinct | Question2/Q2.py:33-35 | repeats plus distinct tasks equals the number of tasks |
| ScheduleFitness.MissingPenaltyCountsMissing | Question2/Q2.py:40-41 | the end penalty is 1000 for each of the seven tasks never used |
| ScheduleFitness.OverflowZero | Question2/Q2.py:36-39 | the capacity penalties are 0 exactly when every facility is within capacity |
| ScheduleFitness.EachTaskOnce | Question2/Q2.py:33-41 | no repeat and no missing penalty exactly when the schedule has seven tasks covering 1..7 |
| ScheduleFitness.NoPenaltyExactly | Question2/Q2.py:33-41 | the total penalty is 0 exactly when each of the seven tasks is used once and no facility is overloaded |
| ScheduleFitness.FirstSegmentCosts | Question2/Q2.py:4-13 | the costs of `147`, `35` and `26` at facilities 1, 2 and 3 are 33, 22 and 26 |
| ScheduleFitness.FirstChromosomeTimes | Question2/Q2.py:15-21 | the times of `147`, `35` and `26` fit the capacities 24, 30 and 28 |
| ScheduleFitness.FirstChromosomeNoPenalty | Question2/Q2.py:117 | `147-35-26` carries no penalty |
| ScheduleFitness.FirstPopulationFitness | Question2/Q2.py:117 | `147-35-26` is well formed and its fitness is 81 |
| GeneticOperators.TaskChar | Question2/Q2.py:46 | `str(n)` of a draw 1..7 is the task character of task n |
| GeneticOperators.FirstUnused | Question2/Q2.py:44-49 | the picked character is always a task character |
| GeneticOperators.FirstUnusedFresh | Question2/Q2.py:44-49 | if some try is unused the pick is unused; if all 100 tries are used the pick is the fallback `'1'` |
| GeneticOperators.GiveRandomNotUsed | Question2/Q2.py:44-49 | the retry loop returns the first unused draw, else `'1'` |
| GeneticOperators.PickAll | Question2/Q2.py:63-67 | one task character per pick |
| GeneticOperators.PickAllAt | Question2/Q2.py:63-67 | pick number n is `give_random_not_used` of the picks before it |
| GeneticOperators.PickTasks | Question2/Q2.py:63-67 | the inner loop appends the next `count` picks, updates the used set to exactly the picks so far and lowers `remaining` by `count` |
| GeneticOperators.BuildChromosome | Question2/Q2.py:54-69 | one chromosome is the `-`-join of its three facility parts cut from the picks at the drawn counts |
| GeneticOperators.InitialPartsFacts | Question2/Q2.py:57-68 | the three parts hold task digits only and together are the picks in order |
| GeneticOperators.PicksFresh | Question2/Q2.py:63-67 | every pick is new to the picks before it unless it is the `'1'` fallback |
| GeneticOperators.InitialShape | Question2/Q2.py:56-69 | each chromosome is well formed, has segment lengths `[count1, count2, 7 - count1 - count2]`, holds exactly its seven picks, and repeats a task only through the fallback |
| GeneticOperators.WellFormedJoin | Question2/Q2.py:69 | joining at most three parts of task digits gives a chromosome `fitness_calculation` accepts |
| GeneticOperators.Initialization | Question2/Q2.py:51-70 | one chromosome per iteration (none for n below 1), each built from its draws, well formed, with three facilities and seven tasks |
| GeneticOperators.Pieces | Question2/Q2.py:84-90 | `reconstruct` cuts one piece per length |
| GeneticOperators.PiecesFlatten | Question2/Q2.py:84-90 | the pieces written together are the first `sum(lens)` characters of the string |
| GeneticOperators.PiecesLengths | Question2/Q2.py:84-90 | with enough characters, each piece has its length |
| GeneticOperators.PiecesNoDash | Question2/Q2.py:84-90 | pieces of a dash-free string are dash free |
| GeneticOperators.Reconstruct | Question2/Q2.py:84-90 | the loop computes the `-`-join of the pieces |
| GeneticOperators.ReconstructLossless | Question2/Q2.py:84-91 | a dash-free string of length `sum(lens)` is rebuilt without loss: splitting gives the pieces, their lengths are `lens`, and removing dashes gives the string back |
| GeneticOperators.TotalTasks | Question2/Q2.py:77-78 | the total of the segment lengths is the number of tasks |
| GeneticOperators.Cross | Question2/Q2.py:82-83 | for a cut inside both strings the child has the second parent's length and is the first `point` tasks of one parent followed by the rest of the other |
| GeneticOperators.CrossChild | Question2/Q2.py:82-91 | a rebuilt child of same-length parents has the given segment lengths and the crossed tasks |
| GeneticOperators.CrossMultiset | Question2/Q2.py:82-83 | the two children of one cut hold the parents' tasks between them |
| GeneticOperators.TaskIndices | Question2/Q2.py:104 | every listed pair is a position (segment, index) of a task |
| GeneticOperators.SinglePointCrossover | Question2/Q2.py:72-91 | parents returned on a failed coin or at most one task; otherwise the children are the reconstructions of the crossed strings; with equal task counts each child has parent1's segment lengths, child1's tasks are `p1[:point] + p2[point:]`, child2's the mirror, and the tasks of both together are preserved |
| GeneticOperators.TaskIndicesFacts | Question2/Q2.py:104 | there is one task index per task, and a pair is listed exactly when it is a position of a segment |
| GeneticOperators.SwapShape | Question2/Q2.py:108-112 | a swap keeps the segment lengths, exchanges the two tasks and changes no other position |
| GeneticOperators.SwapMultiset | Question2/Q2.py:108-112 | a swap keeps the multiset of tasks |
| GeneticOperators.SwapMutation | Question2/Q2.py:100-113 | returned unchanged on a failed coin or fewer than two tasks; otherwise the segment lengths are kept, the two sampled positions are exchanged, every other position is unchanged and the multiset of tasks is preserved |
| PeakSearch.Query | Question1/Q1.py:15-16 | the height is at most 49, and 49 exactly at x = 7 |
| PeakSearch.CompareThree | Question1/Q1.py:1-13 | returns one of its arguments; it is the highest of the three in every case except a tie of pos1 and pos2 above pos3 |
| PeakSearch.CompareThreeTies | Question1/Q1.py:6-13 | pos1 on a three-way tie or a strict maximum at pos1; pos2 on a strict maximum at pos2; pos3 in every other case, in particular when pos3 ties for the maximum or pos1 and pos2 tie above pos3 |
| PeakSearch.TieGoesToThird | Question1/Q1.py:12-13 | `compare_three(6, 0, 8)` returns 8: pos1 and pos3 tie at 48 above pos2 |
| PeakSearch.QueryDifferences | Question1/Q1.py:15-16 | the height differences between neighbours are linear in the position |
| PeakSearch.StepRule | Question1/Q1.py:24-32 | the comparison points right of the position exactly for positions up to 6, and then at position + 1 |
| PeakSearch.LocatePeak | Question1/Q1.py:18-40 | the walk ends at 7 or just past the limit, whichever comes first (at 0 for a negative limit), with the height of that position and `step` one above the number of rounds |
| PeakSearch.RunLocatePeak | Question1/Q1.py:42 | `locate_peak(100)` ends at position 7 with height 49 |

## Left out

- `read_puzzle_file` and the module-level read of `puzzle.txt`: file I/O. The puzzle string is a parameter.
- `run_ortools_solver`: a foreign call into the OR-Tools CP-SAT solver.
- Every `time.time()` measurement and every `print`, including the step table of `locate_peak`.
- `roulette_selection`: float reciprocals and `random.choices` weighting.
- `genetic_Algo`: the random-driven driver loop with `float('inf')`, which only composes the modelled operators.
- SudokuSolver.PrepareYourSolverData: requires exactly 81 ASCII digits. The source does no validation, and this input is what it is meant for:
  - A string shorter than 81 characters raises `IndexError`.
  - A non-digit among the first 81 characters raises `ValueError`.
  - Characters after the first 81 are read by neither solver and are ignored.
  - Python's `int()` also accepts non-ASCII decimal digits such as Arabic-Indic ones.

  None of these paths is modelled. The same holds for ClassicSolver.RunClassicBacktrackingSolver.
- Grids are flat 81-cell arrays rather than lists of nine row lists. Cell (r, c) is at index `9 * r + c`, the same order as the source's `index` counter.
- Domain sets are values. Python shares the saved set object between `saved_domain` and the grid; the model copies it. This cannot change the outcome, because the cell holds the marker while the saved set is out of the grid.
- ScheduleFitness.FitnessCalculation: requires ASCII characters `1`..`7` or `-` and at most three segments. Other input is not modelled:
  - Task `0` makes Python index with -1 and read the last table row.
  - Tasks `8` and `9` raise `IndexError`.
  - A fourth segment raises `IndexError` at its first task, or at the capacity lookup when it is empty.
  - A non-digit raises `ValueError`.
  - Non-ASCII decimal digits are accepted by `int()`.
- Random draws (`random.random()`, `random.randint`, `random.sample`) are parameters. The preconditions say which values the library can return, e.g. two different task positions for `random.sample`.
- Python floats: the crossover and mutation coins compare `real` values, and there is no rounding.
- GeneticOperators.GiveRandomNotUsed: does not model the randomness. The 100 draws are given, and the `'1'` fallback can repeat a task, as `PicksFresh` states.
- GeneticOperators.SinglePointCrossover: with parents of different task counts, Python slicing truncates or shortens the rebuilt parts. The model computes those children through `Pieces`, but proves length and content properties only for equal task counts.
- The accumulator `remaining` of `initialization` is tracked in `PickTasks`. Only its final value matters: the third facility gets the tasks that remain.
