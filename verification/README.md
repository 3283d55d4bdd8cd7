# Sudoku solver core in Dafny

This project models the pure logic of a small NumPy-based Sudoku package and
proves properties of it. It covers four parts.

- **Block geometry** (`Operations`, `operations.dfy`). `split_in_subblocks` cuts an n×n grid, with n = b·b, into a b×b arrangement of b×b blocks. The model includes its inverse, numpy's block assembly.
- **Constraint checker** (`Checks`, `checks.dfy`).
  - The per-group tests `_check_all_unique` and `_check_all_valid`.
  - `check_horizontals`, `check_verticals` and `check_subblocks`.
  - Unknown cells hold the sentinel `Constants.Unknown`, which is 0, and every check ignores them.
- **Naked-single elimination** (`Rules`, `rules.dfy`). This covers `update_horizontals`, `update_verticals` and `update_blocks` on the candidate array.
  - A cell is a mask over the valid symbols. It is *collapsed* when exactly one candidate is left.
  - In every row, column or block, a symbol is removed from the non-collapsed cells when exactly one collapsed cell of that group holds it.
- **Puzzle state** (`Sudoku`, `sudoku.dfy`). This covers the `Puzzle` and `ClassicPuzzle` constructors:
  - squeezing the input and rejecting data that is not 2-D;
  - replacing the caller's unknown sentinel;
  - the sorted symbol list and symbol lookup;
  - the initial candidate array;
  - the solved and unsolved cell lists;
  - `check`/`validate`;
  - the perfect-square test and the block size.

Grids are `seq<seq<int>>` and candidate arrays are `seq<seq<seq<bool>>>`. All values are immutable. So "the input is not modified" and "the rule returns a fresh copy" hold by construction, and no contract states them.

Each rule is modelled as a method that walks its groups one after another and updates the state in place, as the source does. Each method is proved equal to `Rules.Pass`, an order-free reference that updates every cell against its group as the group stood before the call. This shows that the groups of one call do not interact and that processing order does not matter.

## Model

| member | source | states |
|---|---|---|
| Operations.FlattenAt | src/sudokusolver/checks.py:8 | Row-major flattening of rows of width w puts entry (x, y) at index x·w + y. |
| Operations.SplitInSubblocks | src/sudokusolver/operations.py:4-17 | For n = b·b the result has b block-rows of b blocks each. Block [r][c] is the block cut from rows r·b.. and columns c·b.. of the grid. |
| Operations.SplitAt | src/sudokusolver/operations.py:11-15 | Entry (x, y) of block [r][c] is grid cell (r·b + x, c·b + y), and that cell lies inside the grid. |
| Operations.SplitPartitions | src/sudokusolver/operations.py:11-15 | Every cell (i, j) lies in block [i/b][j/b] at offset (i%b, j%b). No other block position names that cell, so the blocks partition the grid. |
| Operations.AssembleSplit | src/sudokusolver/operations.py:11-17 | Assembling the blocks row-major gives back the original grid. |
| Operations.SplitAssemble | tests/test_operation.py:5-11 | Splitting a grid assembled from b×b blocks of b×b entries returns exactly those blocks. |
| Checks.UniqueCount | src/sudokusolver/checks.py:7-10 | "Number of distinct known values equals number of known values" holds exactly when no known value occurs twice. |
| Checks.Known | src/sudokusolver/checks.py:8-9 | The known values of a group are exactly its entries other than the unknown sentinel, each occurring as often as in the group. |
| Checks.AllUnique | src/sudokusolver/checks.py:7-10 | True iff no known value occurs twice in the group. Unknown cells are ignored. |
| Checks.DifferenceEmpty | src/sudokusolver/checks.py:13-17 | The set of known values minus the valid symbols is empty iff every known value is a valid symbol. |
| Checks.AllValid | src/sudokusolver/checks.py:13-17 | True iff every known value of the group is a valid symbol. Unknown cells are ignored. |
| Checks.CheckHorizontals | src/sudokusolver/checks.py:20-29 | Returns true iff every row passes both the uniqueness and the validity test. |
| Checks.CheckVerticals | src/sudokusolver/checks.py:32-41 | Returns true iff every column passes both tests. |
| Checks.CheckSubblocks | src/sudokusolver/checks.py:44-56 | Returns true iff every block of the split passes both tests. |
| Checks.ForgettingKeepsValid | tests/test_checks.py:34-52 | A grid that passes all three checks still passes them after any of its cells are set to unknown. |
| Checks.ClearCellKeepsValid | tests/test_checks.py:21-36 | A grid that passes all three checks still passes them after one cell is set to unknown. |
| Checks.DuplicateInRowFails | tests/test_checks.py:24-39 | A second copy of a known value in a row makes the row check fail. |
| Checks.DuplicateInColumnFails | tests/test_checks.py:42-47 | A second copy of a known value in a column makes the column check fail. |
| Checks.DuplicateInBlockFails | tests/test_checks.py:50-55 | Two distinct cells of one block holding the same known value make the block check fail. |
| Rules.CollapsedSingle | src/sudokusolver/rules.py:13 | A collapsed cell has exactly one open symbol: any two open symbols of it are equal. |
| Rules.Collapsed | src/sudokusolver/rules.py:13 | The mask "sum of the cell's candidates equals one" (also at lines 25 and 47) holds iff some symbol is open in the cell and no other symbol is. |
| Rules.CountIsOne | src/sudokusolver/rules.py:13 | A candidate count of exactly one is the same as having one sole open symbol. |
| Rules.Claimed | src/sudokusolver/rules.py:14 | The mask "sum over the collapsed cells equals one" (also at lines 26 and 48) holds for symbol v iff exactly one collapsed cell of the group holds v. |
| Rules.ClaimedIffOnlyHolder | src/sudokusolver/rules.py:13-14 | The count test "sum over the collapsed cells equals one" holds iff some collapsed cell holds the symbol and no other collapsed cell does. |
| Rules.EliminateCell | src/sudokusolver/rules.py:15 | The update of one cell keeps its number of symbols and never opens a candidate. |
| Rules.EliminateCellKeeps | src/sudokusolver/rules.py:13-15 | A candidate survives iff it was open and either its cell is collapsed or no collapsed cell of the group is the only holder of that symbol. |
| Rules.EliminateGroup | src/sudokusolver/rules.py:12-27 | Updating a row or column keeps its shape, never opens a candidate, and leaves every collapsed cell as it was. |
| Rules.EliminateGroupKeeps | src/sudokusolver/rules.py:12-27 | In the updated row or column, candidate v of cell t is open iff it was open and either the cell is collapsed or no collapsed cell is the only holder of v. |
| Rules.EliminateBlock | src/sudokusolver/rules.py:45-51 | Updating a block keeps its b×b shape. |
| Rules.EliminateBlockKeeps | src/sudokusolver/rules.py:45-51 | In the updated block, candidate v of cell (x, y) keeps its length and is open iff it was open and either the cell is collapsed or no collapsed cell of the whole block is the only holder of v. |
| Rules.EliminateSound | src/sudokusolver/rules.py:13-15 | Suppose every cell of a group admits its symbol in some solution, and those symbols are pairwise different. Then every cell still admits its symbol after the update. |
| Rules.DoubleHolderNotRemoved | src/sudokusolver/rules.py:14 | A symbol held by two collapsed cells of a group is removed from no cell of that group, because the count must be exactly one. |
| Rules.GroupPlace | src/sudokusolver/rules.py:12-45 | Cell (i, j) occurs in its own row, column or block, at the position the group's row-major order gives it. |
| Rules.GroupEntry | src/sudokusolver/rules.py:41-45 | Entry t of the row, column or block of (i, j) is a named grid cell. So the groups of two grids of one shape line up entry by entry. |
| Rules.Pass | src/sudokusolver/rules.py:11-15 | The reference pass keeps the array's shape, never opens a candidate, and leaves collapsed cells unchanged. |
| Rules.PassRemovesIffOnlyHolder | src/sudokusolver/rules.py:11-15 | In a non-collapsed cell, an open candidate v is cleared iff exactly one collapsed cell of its group, as seen before the pass, holds v. |
| Rules.PassKeepsSolution | src/sudokusolver/rules.py:11-52 | If the candidates admit a solution whose rows, columns or blocks hold distinct symbols, the matching rule keeps admitting it. |
| Rules.UpdateHorizontals | src/sudokusolver/rules.py:7-16 | Updating row after row gives the order-free reference pass over rows. |
| Rules.UpdateVerticals | src/sudokusolver/rules.py:19-28 | Updating column after column gives the order-free reference pass over columns. |
| Rules.UpdateBlocks | src/sudokusolver/rules.py:31-52 | Updating block after block in row-major order gives the order-free reference pass over blocks. |
| Rules.UpdateBlockRow | src/sudokusolver/rules.py:42-51 | Updating the blocks of one block-row, left to right, extends agreement with the reference pass by those b rows and leaves the rows below untouched. |
| Rules.BlockStep | src/sudokusolver/rules.py:41-51 | Updating one block extends agreement with the reference pass by exactly that block. Earlier blocks stay as they were, and later ones still hold the original cells. |
| Sudoku.Squeeze | src/sudokusolver/sudoku.py:15 | Squeezing drops exactly the axes of length one and keeps the number of cells. |
| Sudoku.SqueezeKeepsOrder | src/sudokusolver/sudoku.py:15 | The kept axes are the axes of length other than one, taken at strictly increasing positions: the squeeze keeps their order. |
| Sudoku.SqueezeTwoAxes | src/sudokusolver/sudoku.py:15-17 | Two axes are left iff exactly two positions p < q hold lengths other than one, and then the squeezed shape is [shape[p], shape[q]] in that order. |
| Sudoku.TwoDimensional | src/sudokusolver/sudoku.py:17 | The `ndim == 2` test holds iff exactly two axes have length other than one. The rows are then the first of them and the columns the second. |
| Sudoku.Reshape | src/sudokusolver/sudoku.py:15 | The row-major cells become a rows×cols grid whose flattening gives the cells back. |
| Sudoku.ReplaceUnknown | src/sudokusolver/sudoku.py:21 | A cell becomes unknown iff it held the caller's sentinel or was already unknown. Every other cell keeps its value. |
| Sudoku.ReplaceUnknownIdempotent | src/sudokusolver/sudoku.py:21 | Replacing the sentinel a second time changes nothing. |
| Sudoku.SortedUnique | src/sudokusolver/sudoku.py:22 | The stored symbols are strictly increasing and are exactly the given symbols. |
| Sudoku.IncreasingUnique | src/sudokusolver/sudoku.py:22 | Two strictly increasing lists with the same elements are equal. |
| Sudoku.SortedUniqueOrderFree | src/sudokusolver/sudoku.py:22 | The stored symbols depend only on the set of symbols given, not on how it is listed. |
| Sudoku.IndexOf | src/sudokusolver/sudoku.py:56-57 | The lookup fails iff the element is not a valid symbol. Otherwise it gives the first index holding the element. |
| Sudoku.IndexOfIncreasing | src/sudokusolver/sudoku.py:56-57 | Over the stored, strictly increasing symbols, the lookup gives index t exactly when position t holds the element. |
| Sudoku.Initialize | src/sudokusolver/sudoku.py:59-63 | Initialisation fails iff some given value is not a valid symbol. Otherwise an unknown cell has every candidate, and a given cell has exactly the candidate whose symbol is its value. |
| Sudoku.InitialCandidates | src/sudokusolver/sudoku.py:59-63 | An unknown cell starts with all k candidates. A given cell starts collapsed onto the index of its value. |
| Sudoku.InitialAdmitsCompletions | src/sudokusolver/sudoku.py:59-63 | The initial candidates rule out no completion that agrees with the given values. |
| Sudoku.SolvedIds | src/sudokusolver/sudoku.py:48-50 | Lists exactly the cells whose value is known, in strictly increasing row-major order. |
| Sudoku.UnsolvedIds | src/sudokusolver/sudoku.py:44-46 | Lists exactly the cells whose value is unknown, in strictly increasing row-major order. |
| Sudoku.SolvedUnsolvedPartition | src/sudokusolver/sudoku.py:44-50 | The two lists are disjoint, cover every cell, and together hold rows·cols positions. |
| Sudoku.ISqrt | src/sudokusolver/sudoku.py:136 | The integer root r satisfies r² ≤ n < (r+1)². |
| Sudoku.PerfectSquareRoot | src/sudokusolver/sudoku.py:136-139 | b·b = n iff n is a perfect square and b is its integer root, so the block size is the only possible root. |
| Sudoku.Passes | src/sudokusolver/sudoku.py:65-76 | One validator holds iff the grid can be cut into the groups it inspects and the row, column or block (side: the integer root of the row count) of every cell has no repeated known value and only valid symbols. |
| Sudoku.RowsGroupwise | src/sudokusolver/checks.py:20-29 | The row check passes iff the row of every cell, as the rules see it, passes both group tests. |
| Sudoku.ColumnsGroupwise | src/sudokusolver/checks.py:32-41 | The column check passes iff the column of every cell, as the rules see it, passes both group tests. |
| Sudoku.BlocksGroupwise | src/sudokusolver/checks.py:44-56 | The block check passes iff the block of every cell, as the rules see it, passes both group tests. |
| Sudoku.Check | src/sudokusolver/sudoku.py:65-70 | True iff every listed check passes. It stops at the first failure. |
| Sudoku.Validate | src/sudokusolver/sudoku.py:72-76 | Raises iff `Check` would be false, and names the first failing check in list order. |
| Sudoku.NoChecksAlwaysPass | src/sudokusolver/sudoku.py:12 | With the empty list of checks, `check` is true and `validate` never raises. |
| Sudoku.NewPuzzle | src/sudokusolver/sudoku.py:14-26 | Fails with NotTwoDimensional when the squeezed data is not 2-D. Succeeds iff the data is 2-D, every given value is a symbol, and the listed checks pass. On success: the data is the replaced grid, the symbols are sorted, the candidates come from initialisation, and no block size is set. |
| Sudoku.NoChecksPass | src/sudokusolver/sudoku.py:12-26 | The base constructor rejects only non-2-D data and unknown symbols. |
| Sudoku.NewClassic | src/sudokusolver/sudoku.py:122-139 | Succeeds iff the data is 2-D, the symbols are valid, and the row count (the puzzle's size) is a perfect square. The block size squared is then the size. |
| Sudoku.NewClassicFixed | src/sudokusolver/sudoku.py:123-137 | Accepts exactly what the as-written constructor accepts that is also square and passes the three validators. |
| Sudoku.ClassicAcceptsNonSquare | src/sudokusolver/sudoku.py:133-134 | A 4×2 grid is accepted as written. The intended constructor rejects it as not square. |
| Sudoku.ClassicAcceptsRepeats | src/sudokusolver/sudoku.py:123 | A 4×4 grid with the symbol 1 twice in a row is accepted as written. The intended constructor rejects it. |

## Left out

- `solver.py` is not modelled. It calls methods that `Puzzle` does not define, ignores its iteration bound and only prints, so there is no solving driver to model. No properties come from its test.
- `io.py` (text parsing, float conversion) and the command-line script are I/O.
- `as_str` and `__str__` are display formatting only.
- numpy dtype conversion is not modelled; cells are unbounded integers. An input that numpy cannot turn into a rectangular array is excluded by the precondition `Product(shape) == |cells|`.
- The floating-point `np.sqrt`/`round` of the perfect-square test is modelled with the exact integer root `ISqrt`. It agrees with the float version wherever the float square root is exact.
- Operations.SplitInSubblocks: n = b·b with b > 0 is a precondition, as it is for `Checks.CheckSubblocks` and `Rules.UpdateBlocks`. In the source, b is `int(np.sqrt(rows))`, truncated, and the `TypeError` branch is dead. `np.split` raises only when b does not divide the row count or the column count, or when b = 0. Otherwise it returns equal pieces of (rows/b)×(cols/b) cells, which are b×b blocks only when rows = cols = b·b. The other shapes are not modelled here.
- Sudoku.Passes: the block validator treats as failing every grid that is not square with a perfect-square size. For such a grid the source either raises from `np.split` or, when b divides both sides, tests (rows/b)×(cols/b) pieces. For example, a 4×2 grid gets 2×1 pieces, and an 8×8 grid gets 4×4 pieces. `NewClassicFixed` runs this validator only after its square and perfect-square tests, so there it sees exactly b×b blocks, except for the empty grid. For the empty grid b = 0: the source raises from `np.split`, and the model fails with `FailedCheck(Subblocks)`.
- Sudoku.Initialize: the failure does not record which given value raised the `IndexError`.
- The error messages are reduced to the `PuzzleError` constructors.
- `Puzzle.size` is not a separate function. It appears as `|p.data|`, the row count, in the `NewClassic` contract.

## Findings

| source | as written | input that shows it | evidently intended | confidence | as-written member | corrected member |
|---|---|---|---|---|---|---|
| src/sudokusolver/sudoku.py:123 | `ClassicPuzzle` lists `VALIDATORS`, but `check`/`validate` iterate `CHECKS`, which is empty (line 12). A classic puzzle is never validated. | `Sudoku.Repeated`: a 4×4 array whose first row holds 1 twice. It is accepted, as `Sudoku.ClassicAcceptsRepeats` shows. | Construction runs the three validators and rejects the repeat. | not executed | Sudoku.NewClassic | Sudoku.NewClassicFixed |
| src/sudokusolver/sudoku.py:133 | The square test compares `shape[0]` with itself, so it never fires. | `Sudoku.Wide`: a 4×2 array. It is accepted with 2 columns, as `Sudoku.ClassicAcceptsNonSquare` shows. | Compare the row count with the column count, and reject non-square data. | not executed | Sudoku.NewClassic | Sudoku.NewClassicFixed |
