# Sudoku engine — a Dafny model

This project models the two-phase 9×9 Sudoku engine of `wirelyre/sudoku`.

- **Patterns.** A `Pattern` is the set of cells of the grid that hold something. In the source it is an 81-bit field in three 32-bit words.
- **Propagation.** `Possibilities` keeps one pattern per digit: the cells where that digit is still possible. It also keeps four tables of counters: digits left per cell, and places left per digit in each row, column and box. It carries out removals from a LIFO work queue. A counter that drops to one schedules the forced removals. A counter that drops to zero reports `ImpossiblePuzzle`.
- **Templates.** A template is an index into the catalog of every legal layout of one digit: one cell in each row, each column and each box. `fill` builds the catalog row by row. A `Solution` is one template per digit.
- **Search.** `solve` applies the clues, then lists for each digit the templates that fit its possible cells. It orders the digits by list length and searches depth first, recording combinations of pairwise disjoint templates. It returns once it holds `max_solutions` of them. While it holds fewer, it has skipped none.

Modules follow the source files:

| module | file | content |
|---|---|---|
| `Patterns` | `pattern.dfy` | `Pattern` as a set of bit positions and its operations |
| `Units` | `units.dfy` | cells, rows, columns, `box_cells`, and counting a pattern's cells in a group |
| `Templates` | `template.dfy` | `fill`, the catalog's properties, `within`, `is_valid`, `cell`, `to_grid` |
| `Setup` | `setup.dfy` | class `Possibilities`: its four counter tables, work queue and propagation |
| `Solver` | `solver.dfy` | `prepare`, and `solve`'s clue loop, template lists, sort and `search` |

### What is proved, in short

- **Counters.** Every counter equals the number of cells or digits it counts. `Possibilities.Valid` holds this, and every operation keeps it on success.
- **Failure.** `eliminate` fails exactly when a removal empties a cell, or removes the last place of a digit in a row, column or box.
- **Propagation.** `work` terminates: the pair (live candidates, queue length) decreases. The patterns only shrink. On success every queued removal is done. Both rules of the propagation doc comment (src/setup.rs:6-11) hold at the fixed point; `Closed` states them.
- **Propagation loses no solution.** A solved grid *fits* the patterns when each of its digits is still possible in its cell. `work` fails only when no solved grid fits the patterns and avoids the queued removals. On success, the solved grids that fit the result are exactly those.
- **`set`.** On success the cell holds only the given digit. The solved grids that fit afterwards are exactly those that fitted before and show the digit in the cell. On failure no solved grid that fitted shows it there. Setting a digit the cell already holds alone changes nothing.
- **Clues.** After `prepare` or `solve`'s clue loop succeeds, the solved grids that fit are exactly those that keep every clue. When a clue fails, no solved grid keeps every clue.
- **Catalog.** Every layout `fill` emits is legal. The layouts come in strictly increasing column order, so none repeats. Every legal layout is emitted.
- **`within`.** It returns exactly the fitting indices, in increasing order.
- **`is_valid`.** It holds iff the nine layouts are pairwise disjoint.
- **`to_grid`.** A valid solution is a solved grid. Every row, column and box holds each of 1..9.
- **`unique`.** It returns the solution exactly when each digit has one fitting layout and those layouts are disjoint.
- **`search`.** Every recorded combination gives each digit a template from its list, pairwise disjoint. No combination is recorded twice. If it ends holding fewer than `max_solutions`, it has recorded every such combination that keeps the choices made above it.
- **`solve`.** The digit lists are sorted by length and remain a permutation. The output never exceeds the cap. Every grid returned is a solved grid that keeps every clue. When a clue fails the output is empty, and no solved grid keeps every clue. With the full catalog, if fewer than `max_solutions` grids are returned, every solved grid that keeps every clue is among them. With a catalog that lists no layout twice, as `All()` does, the grids returned are pairwise different. So two grids at the cap show that the puzzle has two solutions.

The global catalog `Template::all()` is the parameter `catalog` of the operations that read it. `IsCatalog(catalog)` states that every entry is a legal layout. `CatalogLayouts`, `CatalogOrdered` and `CatalogComplete` show that `All()` qualifies. `All()` is the list `fill` builds, as computed by `BuildAll`.

## Model

| member | source | states |
|---|---|---|
| Patterns.Below | src/pattern.rs:12 | the positions below `n` are exactly `0..n-1`; `FULL` is the positions below 81 |
| Patterns.Without | src/pattern.rs:21-26 | the cell is absent afterwards; every other position keeps its membership; the result is a subset; the 81-bit bound is kept; removing an absent cell changes nothing |
| Patterns.Remove | src/pattern.rs:20-26 | returns whether the cell was present beforehand, and the pattern without it |
| Patterns.Has | src/pattern.rs:15-18 | whether bit `9*row+col` is set, i.e. whether the pattern contains the cell |
| Patterns.With | src/pattern.rs:28-35 | the cell is present afterwards; every other position keeps its membership; the 81-bit bound is kept for an in-grid cell |
| Patterns.And | src/pattern.rs:46-55 | cellwise intersection; bounded if either operand is |
| Patterns.Or | src/pattern.rs:57-66 | cellwise union; bounded if both operands are |
| Patterns.Not | src/pattern.rs:68-73 | flips exactly the 81 cell positions and keeps positions above 80, so the 81-bit bound holds after iff before |
| Patterns.SubsetMeaning | src/pattern.rs:37-39 | `is_subset(a, b)` iff every cell of `a` is in `b` |
| Patterns.IntersectsMeaning | src/pattern.rs:41-43 | `intersects(a, b)` iff some cell is in both |
| Patterns.IsSubset | src/pattern.rs:37-39 | `a & b == a`; `SubsetMeaning` proves it is cell inclusion |
| Patterns.Intersects | src/pattern.rs:41-43 | `a & b != EMPTY`; `IntersectsMeaning` proves it means a shared cell |
| Patterns.IntersectsSymmetric | src/pattern.rs:41-43 | `intersects` is symmetric |
| Patterns.IntersectsOr | src/pattern.rs:41-43 | meeting a union is meeting one of its parts |
| Patterns.NotInvolution | src/pattern.rs:68-73 | complement is an involution |
| Patterns.NotIsDifference | src/pattern.rs:68-73 | for a bounded pattern, complement is set difference from `FULL` |
| Units.RowCells | src/setup.rs:113-117 | the nine cells of a row, in column order |
| Units.ColCells | src/setup.rs:118-122 | the nine cells of a column, in row order |
| Units.BoxCells | src/setup.rs:214-229 | `box_cells` lists nine cells |
| Units.BoxCellsEntry | src/setup.rs:214-229 | entry `k` of `box_cells` is offset `(k / 3, k % 3)` from the box corner |
| Units.SameBox | src/setup.rs:159 | two cells share the box index `row / 3 * 3 + col / 3` iff they share a band and a stack |
| Units.BoxCellsSpec | src/setup.rs:214-229 | `box_cells` lists without repetition exactly the cells whose box index is that of the input cell, and includes the input cell |
| Units.BoxCellsInBox | src/setup.rs:214-229 | every cell `box_cells` lists is in the grid and in the box of the input cell |
| Units.BoxCellsAt | src/setup.rs:214-229 | every cell of the box is listed at its row-major position within the box |
| Units.BoxCellsDistinct | src/setup.rs:214-229 | `box_cells` lists no cell twice |
| Units.BoxNumber | src/setup.rs:159 | box number `3 * band + stack` gives back its band and stack |
| Units.CornerBox | src/setup.rs:216-219 | the top-left cell of box `b` has box index `b` |
| Units.BoxCellsOf | src/setup.rs:159-160 | the cells of box number `b` are the nine distinct cells with that box index |
| Units.BoxCellsNumbered | src/setup.rs:159-163 | the box of `(row, col)` in `box_cells` is the box numbered `row / 3 * 3 + col / 3` |
| Units.UnitMembership | src/setup.rs:159 | a cell lies in its own row, column and numbered box |
| Units.IdxFacts | src/pattern.rs:16 | the row-major index of a grid cell is below 81 and gives back its row and column |
| Units.AgreeExceptBits | src/pattern.rs:21-35 | patterns differing at most in one cell's bit agree on every other cell |
| Units.CellIndexInjective | src/pattern.rs:16 | the row-major index `9 * row + col` is injective on grid cells |
| Units.CountBound | src/setup.rs:62-65 | a group count is at most the number of cells in the group |
| Units.CountZero | src/setup.rs:140 | a count is zero iff no cell of the group is in the pattern |
| Units.CountPositive | src/setup.rs:170-194 | a positive count means some cell of the group is in the pattern |
| Units.CountOne | src/setup.rs:141-163 | a count of one means exactly one cell of the group is in the pattern |
| Units.CountSingle | src/setup.rs:141-163 | a pattern holding exactly one listed cell has count one |
| Units.RowGroup | src/setup.rs:113-117 | the cells of a row are nine grid cells, any two of them peers |
| Units.ColGroup | src/setup.rs:118-122 | the cells of a column are nine grid cells, any two of them peers |
| Units.BoxGroup | src/setup.rs:214-229 | the cells of a box are nine grid cells, any two of them peers |
| Units.CountChange | src/setup.rs:145-161 | removing a present cell of the group lowers the count by one |
| Units.CountUnaffected | src/setup.rs:145-161 | removing a cell outside the group leaves the count unchanged |
| Units.Scan | src/setup.rs:176-194 | the first position at or after `i` whose cell is in the pattern, or the end |
| Units.FirstIn | src/setup.rs:176-194 | for a positive count, the first listed cell in the pattern, with none before it |
| Units.DigitCountZero | src/setup.rs:138-140 | the cell count is zero iff no digit is left in the cell |
| Units.DigitCountPositive | src/setup.rs:170-175 | some digit is left in the cell when the cell count is positive |
| Units.DigitCountOne | src/setup.rs:141 | a cell count of one means exactly one digit is left |
| Units.DigitCountChange | src/setup.rs:138 | removing a present digit lowers the cell count by one; other cells keep theirs |
| Units.DigitScan | src/setup.rs:170-175 | the first digit at or after `d` still possible in the cell, or 9 |
| Units.FirstDigit | src/setup.rs:170-175 | for a positive count, the first possible digit, with none before it |
| Units.DistinctCard | src/template.rs:43-60 | a repetition-free sequence has as many values as entries |
| Units.NineOfNine | src/template.rs:44-46 | nine distinct values below 9 are all of `0..8` |
| Units.BelowCard | src/template.rs:43-60 | `0..n-1` has `n` elements |
| Units.SubsetCard | src/template.rs:43-60 | a subset is no larger than its superset |
| Templates.ColumnOf | src/template.rs:48-57 | the column a layout occupies in a row |
| Templates.ColumnIs | src/template.rs:48-57 | the occupied column of a row is the only one |
| Templates.Fill | src/template.rs:43-60 | appends to `into` exactly `Layouts(build, cols, boxes, row)`, the recursive definition of what `fill` emits |
| Templates.BranchesStep | src/template.rs:48-59 | one iteration of the column loop appends that column's branch, or nothing when its column or box is used |
| Templates.BuildAll | src/template.rs:62-63 | the catalog is `fill(EMPTY, 0, 0, 0)`, i.e. `All()` |
| Templates.All | src/template.rs:38-66 | the list `fill(EMPTY, 0, 0, 0)` produces; `CatalogLayouts`, `CatalogOrdered` and `CatalogComplete` prove it is every legal layout, each once, in increasing order |
| Templates.PartialStart | src/template.rs:63 | `EMPTY` with no used columns or boxes is a valid partial layout of zero rows |
| Templates.PartialStep | src/template.rs:49-56 | placing a free column in a free box extends a partial layout by one row |
| Templates.PartialDone | src/template.rs:44-46 | a partial layout of nine rows is a legal layout |
| Templates.AddCount | src/template.rs:49-56 | adding a new cell of a group raises its count by one |
| Templates.RowsStep | src/template.rs:49-56 | after placing row `row`, rows `0..row` have one cell each |
| Templates.ColsStep | src/template.rs:49-56 | the used-column set is exactly the columns occupied so far |
| Templates.BoxesStep | src/template.rs:49-56 | the used-box set is exactly the boxes occupied so far |
| Templates.LayoutsShape | src/template.rs:43-60 | every emitted layout is legal and extends `build` |
| Templates.BranchesShape | src/template.rs:48-59 | the layouts of columns `0..n-1` are legal, extend `build`, and use a column below `n` in this row |
| Templates.BranchShape | src/template.rs:50-57 | the layouts through a free column of a row are legal, extend `build`, and use that column in that row |
| Templates.OrderedConcat | src/template.rs:48-59 | increasing lists concatenate into one when every entry of the first precedes every entry of the second |
| Templates.Across | src/template.rs:48-59 | layouts through a lower column of a row precede layouts through a higher one |
| Templates.LayoutsOrdered | src/template.rs:43-60 | `fill` emits layouts in strictly increasing order of column choice, row by row |
| Templates.BranchesOrdered | src/template.rs:48-59 | the same for the first `n` columns of the loop |
| Templates.FrontPrecedesBack | src/template.rs:48-59 | the layouts of the earlier columns of the loop precede those of the current column |
| Templates.BranchesContain | src/template.rs:48-59 | every layout emitted through a free column `col` is among those of the columns `0..n-1` for `n > col` |
| Templates.SameCells | src/template.rs:44-46 | two bounded patterns holding the same grid cells are equal |
| Templates.FreeChoice | src/template.rs:49-50 | a legal extension's column in the next row is free in both masks |
| Templates.ExtendsStep | src/template.rs:51-57 | a legal extension of `build` through column `c` extends `build.with(row, c)` |
| Templates.LayoutsComplete | src/template.rs:43-60 | every legal layout that extends `build` is emitted |
| Templates.CatalogLayouts | src/template.rs:38-66 | every catalog entry is a legal layout |
| Templates.CatalogOrdered | src/template.rs:38-66 | the catalog is strictly increasing, so no entry repeats |
| Templates.PrecedesDiffers | src/template.rs:38-66 | a layout differs from every layout it precedes |
| Templates.CatalogComplete | src/template.rs:38-66 | every legal layout is in the catalog |
| Templates.AsPattern | src/template.rs:68-70 | a template's pattern is the catalog entry at its index, a legal layout |
| Templates.WithinFrom | src/template.rs:73-80 | indices at or after `i` whose entry fits, each once, in increasing order, none missing |
| Templates.Within | src/template.rs:73-80 | exactly the indices whose catalog entry is a subset of `possible`, in increasing order |
| Templates.Layout | src/template.rs:68-70 | the layout of digit `d` in a solution is a legal layout |
| Templates.IntersectsUnion | src/template.rs:86-92 | a layout meets the union of the first `n` layouts iff it meets one of them |
| Templates.IsValid | src/template.rs:85-94 | true iff the nine layouts are pairwise disjoint; `filled` is the union of the layouts seen so far |
| Templates.LayoutScan | src/template.rs:96-103 | the first digit at or after `d` whose layout holds the cell, or 9 |
| Templates.CellDigit | src/template.rs:96-103 | for a covered cell, 1 + the first digit whose layout holds it |
| Templates.ToGrid | src/template.rs:105-110 | 81 values in row-major order, each 1 + a digit whose layout holds that cell |
| Templates.LayoutNoPeers | src/template.rs:5-8 | a legal layout holds no two cells that share a row, column or box |
| Templates.Columns | src/template.rs:96-110 | the column of each digit's layout in a row |
| Templates.ColumnsDistinct | src/template.rs:85-94 | pairwise disjoint layouts use distinct columns in every row |
| Templates.RowCovered | src/template.rs:96-103 | with disjoint layouts every cell is held by some digit, so `cell` does not panic |
| Templates.DisjointCovers | src/template.rs:96-110 | a valid solution covers every cell |
| Templates.ValidSolutionSolved | src/template.rs:85-110 | a valid solution's grid has each of 1..9 once in every row, column and box |
| Setup.OthersBelowMembers | src/setup.rs:106-110 | the first `n` digits other than `digit`, each once |
| Setup.OthersMembers | src/setup.rs:105-110 | `enqueue_others` schedules exactly the removals of the eight other digits from the cell |
| Setup.RowRestMembers | src/setup.rs:113-117 | the row part schedules the other columns of the row |
| Setup.ColRestMembers | src/setup.rs:118-122 | the column part schedules the other rows of the column |
| Setup.BoxRestMembers | src/setup.rs:123-127 | the box part schedules the other cells of the box |
| Setup.AdjacentPeers | src/setup.rs:111-128 | `enqueue_adjacent` schedules the digit for exactly the peers of the cell, never for the cell itself |
| Setup.Removed | src/setup.rs:132 | removing `(row, col, digit)` clears exactly that candidate and changes no other |
| Setup.RemovedCellCounts | src/setup.rs:138 | a removal lowers the count of its own cell by one and no other |
| Setup.RemovedGroupCount | src/setup.rs:145-161 | a removal lowers its digit's count in a group holding the cell by one, and changes no other count |
| Setup.RemovedRowCounts | src/setup.rs:145 | the same for the row counters |
| Setup.RemovedColCounts | src/setup.rs:152 | the same for the column counters |
| Setup.RemovedBoxCounts | src/setup.rs:159-160 | the same for the box counters |
| Setup.GoneStep | src/setup.rs:94-96 | popping and carrying out a removal keeps every other removal done or pending |
| Setup.CellCascade | src/setup.rs:141 | a cell left with one digit queues that digit's removal from every peer |
| Setup.CellRuleKept | src/setup.rs:138-143 | rule 1 at a cell survives one removal plus its cascade |
| Setup.RowCascade | src/setup.rs:148 | a row left with one place for a digit queues the other digits' removal there |
| Setup.ColCascade | src/setup.rs:155 | the same for a column |
| Setup.BoxCascade | src/setup.rs:163 | the same for a box |
| Setup.RowRuleAt | src/setup.rs:145-150 | rule 2 for a row, at one cell |
| Setup.RowRuleKept | src/setup.rs:145-150 | rule 2 for a row survives one removal plus its cascade |
| Setup.ColRuleAt | src/setup.rs:152-157 | rule 2 for a column, at one cell |
| Setup.ColRuleKept | src/setup.rs:152-157 | rule 2 for a column survives one removal plus its cascade |
| Setup.BoxRuleKept | src/setup.rs:159-165 | rule 2 for a box survives one removal plus its cascade |
| Setup.ElimKeepsClosed | src/setup.rs:130-168 | carrying out the newest pending removal and queueing its cascade keeps both rules |
| Setup.WorkStep | src/setup.rs:95-96 | one loop turn keeps the loop invariant, lowers the live candidates or shortens the queue, and changes nothing when the removal was already done |
| Setup.ClosedExtend | src/setup.rs:105-110 | queueing more removals keeps both rules |
| Setup.CellPartInRange | src/setup.rs:141 | the cell cascade names only in-grid removals |
| Setup.RowPartInRange | src/setup.rs:148 | the row cascade names only in-grid removals |
| Setup.ColPartInRange | src/setup.rs:155 | the column cascade names only in-grid removals |
| Setup.BoxPartInRange | src/setup.rs:163 | the box cascade names only in-grid removals |
| Setup.CascadeInRange | src/setup.rs:138-165 | everything `eliminate` queues is in range, so its `u8` casts lose nothing |
| Setup.Cascade | src/setup.rs:138-165 | the removals `eliminate` queues for a real removal: the cell part, then the row, column and box parts; `CascadeAvoided` proves none of them contradicts a fitting solved grid |
| Setup.CountFull | src/setup.rs:77-83 | a group count of `FULL` is the size of the group |
| Setup.DigitCountAll | src/setup.rs:77-80 | with every digit possible, the cell count is the number of digits |
| Setup.Fresh | src/setup.rs:77 | nine patterns, as `new` builds them |
| Setup.FreshCounts | src/setup.rs:75-85 | in a fresh grid every cell, row, column and box count is 9 |
| Setup.FreshClosed | src/setup.rs:75-85 | a fresh grid satisfies both rules |
| Setup.LiveUpdate | src/setup.rs:93-99 | replacing one pattern changes the live total by the difference of sizes |
| Setup.LiveRemoved | src/setup.rs:93-99 | a removal that clears a candidate lowers the live total by one, otherwise it changes nothing |
| Setup.Choice | src/setup.rs:197-209 | the one fitting template per digit: well formed, and each layout is a subset of its digit's possible cells |
| Setup.ChoiceUnique | src/setup.rs:197-209 | any well-formed solution fitting every digit's possible cells is that choice |
| Setup.SingleFit | src/setup.rs:201-207 | `within` yields exactly one template iff exactly one catalog index fits |
| Setup.Possibilities.constructor | src/setup.rs:74-85 | every digit possible in every cell, all counters 9, empty queue, both rules hold |
| Setup.Possibilities.FreshReady | src/setup.rs:75-85 | arrays filled as `new` fills them make a ready machine |
| Setup.Possibilities.FreshCells | src/setup.rs:80 | cell counters of 9 match a fresh grid |
| Setup.Possibilities.FreshGroups | src/setup.rs:81-83 | row, column and box counters of 9 match a fresh grid |
| Setup.Possibilities.Enqueue | src/setup.rs:101-104 | pushes exactly one removal onto the queue |
| Setup.Possibilities.EnqueueOthers | src/setup.rs:105-110 | pushes the removals of every other digit, in digit order |
| Setup.Possibilities.EnqueueAdjacent | src/setup.rs:111-128 | pushes the rest of the row, then of the column, then of the box |
| Setup.Possibilities.FindInCell | src/setup.rs:170-175 | the first possible digit of the cell |
| Setup.Possibilities.FindInRow | src/setup.rs:176-181 | the first column of the row where the digit is possible |
| Setup.Possibilities.FindInCol | src/setup.rs:182-187 | the first row of the column where the digit is possible |
| Setup.Possibilities.FindInBox | src/setup.rs:188-194 | the first cell, in `box_cells` order, where the digit is possible |
| Setup.Possibilities.Eliminate | src/setup.rs:130-168 | the candidate is gone and nothing else changes; fails iff the removal empties its cell or its digit's row, column or box; on success the counters still match and the queue grows by exactly the cascade |
| Setup.Possibilities.LowerCounts | src/setup.rs:138-167 | the four counter updates in order: fails iff the cell, or the digit's row, column or box, is left empty; on success the counters match and the queue grows by the cell, row, column and box parts in that order |
| Setup.Possibilities.LowerCellCount | src/setup.rs:138-143 | lowers the cell counter, fails at zero, queues the peers' removals at one |
| Setup.Possibilities.LowerRowCount | src/setup.rs:145-150 | lowers the row counter, fails at zero, queues the other digits' removals at one |
| Setup.Possibilities.LowerColCount | src/setup.rs:152-157 | the same for the column counter |
| Setup.Possibilities.LowerBoxCount | src/setup.rs:159-165 | the same for the box counter |
| Setup.Possibilities.Pop | src/setup.rs:95 | takes the newest removal off the queue |
| Setup.Possibilities.Step | src/setup.rs:95-96 | one loop turn keeps the loop invariant and every solved grid allowed at the start, lowers the live candidates or shortens the queue, and fails only if no solved grid was allowed |
| Setup.Possibilities.Work | src/setup.rs:93-99 | terminates; the patterns only shrink; on success the queue is empty, every queued removal is done, both rules hold if they held before, and the solved grids fitting the result are exactly those allowed at the start; it fails only when no solved grid was allowed; a queue of removals already done changes nothing |
| Setup.Possibilities.Set | src/setup.rs:87-91 | on success the cell holds only `digit - 1`, the queue is empty, both rules hold, and the fitting solved grids are those that fitted and show `digit` there; on failure no fitting solved grid shows `digit` there; a cell already holding just that digit is left as it is |
| Setup.Possibilities.Unique | src/setup.rs:196-211 | some solution iff every digit has exactly one fitting template and the chosen layouts are pairwise disjoint; that solution is the choice |
| Solver.RecordedExtend | src/lib.rs:89-93 | solutions recorded by a nested call join those recorded before |
| Solver.Cap | src/lib.rs:91-93 | the most solutions `search` can hold when it returns: `max_solutions`, or one when that is 0, because the check runs only after a nested call |
| Solver.FilledFrame | src/lib.rs:86-89 | writes to later digits leave the earlier choices and their union unchanged |
| Solver.FilledMeets | src/lib.rs:82-88 | a layout misses `filled` iff it misses every layout chosen so far |
| Solver.Commit | src/lib.rs:82-88 | writing a template that misses `filled` keeps the choices disjoint, and `filled | template` is the new union |
| Solver.Search | src/lib.rs:70-97 | every solution it records gives each listed digit a template from its list, pairwise disjoint, and keeps the earlier choices; the output grows to at most the cap; earlier digits' entries are left as they were; if it ends holding fewer than `max_solutions`, every recordable solution that keeps the earlier choices is recorded; when no list repeats a template, the solutions it records are pairwise different |
| Solver.ListTemplates | src/lib.rs:58-64 | entry `d` pairs digit `d` with exactly the templates `within` yields for the digit's possible cells |
| Solver.SortByLength | src/lib.rs:65 | the entries end up in ascending order of list length, as a permutation of the input |
| Solver.Insert | src/lib.rs:65 | one insertion step: the first `i + 1` entries end up in ascending order of list length, as a permutation |
| Solver.Swap | src/lib.rs:65 | swaps two entries, a permutation |
| Solver.DistinctOnce | src/lib.rs:58-65 | a value occurs at most once in a repetition-free list |
| Solver.TwiceCounted | src/lib.rs:58-65 | a value at two positions occurs at least twice |
| Solver.SortedPlan | src/lib.rs:58-65 | after sorting, the nine entries still pair each digit 0..8, once, with that digit's `within` list |
| Solver.RecordedFits | src/lib.rs:77-89 | a recorded template for a digit fits that digit's possible cells |
| Solver.RecordedSolution | src/lib.rs:77-89 | a recorded solution is well formed, pairwise disjoint, and each layout fits its digit's possible cells |
| Solver.ClueKept | src/lib.rs:39-51 | a set clue stays the only possibility while the patterns shrink |
| Solver.ClueOnly | src/setup.rs:87-91 | a clue's cell with some digit left holds only the clue |
| Solver.GridShowsClue | src/template.rs:96-110 | the grid of a fitting, covering solution shows every clue |
| Solver.CluesStep | src/lib.rs:40-51 | one clue keeps every clue seen so far as the only possibility of its cell |
| Solver.RecordedGrid | src/lib.rs:77-109 | a recorded solution's grid is a solved grid that keeps every clue |
| Solver.Prepare | src/lib.rs:15-28 | on success the machine is ready, every nonzero clue is its cell's only possibility, and the fitting solved grids are exactly those keeping every clue; on failure no solved grid keeps every clue |
| Solver.ApplyClues | src/lib.rs:39-51 | on success the machine is ready, every nonzero clue holds, and the fitting solved grids are exactly those keeping every clue; on failure no solved grid keeps every clue |
| Solver.Solve | src/lib.rs:30-110 | at most `max_solutions` grids (one when it is 0), each a solved grid that keeps every clue; none when a clue fails, and then the puzzle has no solution; with the full catalog and fewer than `max_solutions` grids, every solution is among them; with a catalog without repetitions, such as `All()`, the grids are pairwise different |

| Templates.GroupShows | src/template.rs:5-8 | a solved grid shows each of 1..9 somewhere in every row, column and box |
| Templates.Shows | src/template.rs:105-110 | the cells where a grid shows `v`: a bounded pattern holding exactly those cells, the inverse of `to_grid` for one digit |
| Templates.ShowsOnce | src/template.rs:5-8 | a solved grid shows each digit in exactly one cell of every row, column and box |
| Templates.ShowsLayout | src/template.rs:5-8 | the cells of one digit in a solved grid form a legal layout |
| Templates.ShowsApart | src/template.rs:85-94 | the cells of two different digits are disjoint |
| Templates.AllFull | src/template.rs:38-66 | the catalog `fill` builds holds only legal layouts, and all of them |
| Templates.FromGrid | src/template.rs:105-110 | a solved grid read back as a solution: each digit's layout is the set of cells showing it |
| Templates.ShowsInCatalog | src/template.rs:38-66 | the cells of each digit of a solved grid form an entry of a full catalog |
| Templates.GridSolution | src/template.rs:85-110 | the solution read back from a solved grid is valid, and `to_grid` gives the grid back |
| Templates.GridBack | src/template.rs:105-110 | a covering solution whose layouts are the cells of each digit of `g` has grid `g` |
| Templates.LayoutShows | src/template.rs:96-110 | in a valid solution, digit `d + 1`'s layout is exactly the cells where its grid shows `d + 1` |
| Templates.GridInjective | src/template.rs:96-110 | over a catalog without repetitions, two valid solutions have the same grid iff they are the same solution |
| Setup.FitsFresh | src/setup.rs:75-85 | every solved grid fits a fresh machine |
| Setup.FitsGroup | src/setup.rs:138-165 | in every row, column and box, a fitting solved grid shows each digit in an allowed cell, which is the first allowed one when it is the only one |
| Setup.GroupKept | src/setup.rs:140-165 | while a solved grid fits, no digit's count in a row, column or box is zero |
| Setup.FitsCounts | src/setup.rs:138-165 | while a solved grid fits, no cell count and no row, column or box count is zero |
| Setup.FitsRemoved | src/setup.rs:130-136 | removing a candidate that a grid does not show keeps the grid fitting |
| Setup.NoWipe | src/setup.rs:130-168 | a removal that some fitting solved grid does not contradict does not fail |
| Setup.CellPartAvoided | src/setup.rs:141 | the removals the cell rule queues contradict no fitting solved grid |
| Setup.RowPartAvoided | src/setup.rs:148 | the removals the row rule queues contradict no fitting solved grid |
| Setup.ColPartAvoided | src/setup.rs:155 | the removals the column rule queues contradict no fitting solved grid |
| Setup.BoxPartAvoided | src/setup.rs:163 | the removals the box rule queues contradict no fitting solved grid |
| Setup.CascadeAvoided | src/setup.rs:138-165 | nothing `eliminate` queues contradicts a fitting solved grid that does not show the removed digit |
| Setup.SoundStep | src/setup.rs:93-99 | one turn of `work`'s loop keeps every solved grid allowed at the start, and fails only if none was allowed |
| Setup.DoneAllowed | src/setup.rs:93-99 | once the queue is done, a solved grid fitting the result was allowed at the start |
| Setup.AllowedClue | src/setup.rs:87-91 | the grids allowed once the other digits' removals are queued are the fitting solved grids showing the digit in the cell |
| Solver.Flatten | src/lib.rs:19-21 | the 81 clues of a 9 × 9 input in row-major order |
| Solver.AgreesStep | src/lib.rs:40-51 | after one clue, the solved grids that fit are those keeping every clue up to and including it |
| Solver.AgreesRejected | src/lib.rs:45-50 | a clue that no fitting solved grid shows leaves no solved grid keeping every clue |
| Solver.SetClue | src/lib.rs:40-51 | one clue: on success the clue holds and the fitting solved grids are those keeping the clues so far; on failure no solved grid keeps every clue |
| Solver.SetRow | src/lib.rs:20-24 | `prepare`'s inner loop: the same for the nine clues of a row |
| Solver.CluesOnly | src/lib.rs:19-27 | in a ready machine holding every clue, each clue is its cell's only possibility |
| Solver.Unblocked | src/lib.rs:82-88 | a recordable solution keeping the choices so far has a template for the next digit in its list that misses `filled`, so the loop does not skip it |
| Solver.ExtendsCommit | src/lib.rs:86-89 | committing template `t` keeps every recordable solution that has `t` for that digit |
| Solver.ExtendsAll | src/lib.rs:78 | at full depth the only recordable solution keeping every choice is the scratch solution |
| Solver.FitsShows | src/lib.rs:58-64 | the cells where a fitting grid shows a digit are cells still possible for it |
| Solver.GridRecorded | src/lib.rs:70-97 | a solved grid fitting the patterns, read back as a solution, is one `search` may record |
| Solver.Try | src/lib.rs:82-93 | one turn of `search`'s loop: a template meeting `filled` is skipped, and then no recordable solution uses it; otherwise the solutions recorded keep the earlier choices, use this template, differ from each other when the lists repeat nothing, and include every recordable one with it unless the cap was reached |
| Solver.Join | src/lib.rs:81-93 | the solutions of one more loop turn, appended to the earlier ones, keep the choices, use one of the templates tried so far, stay pairwise different, and miss none |
| Solver.RecordLeaf | src/lib.rs:78 | at full depth the single solution recorded is the scratch solution, the only recordable one keeping every choice |
| Solver.KeptRecorded | src/lib.rs:77-89 | a solution keeping the choices is one `search` may record |
| Solver.ExtendsBack | src/lib.rs:86-89 | a solution keeping the choices after committing a template keeps those before and has that template |
| Solver.ListedDistinct | src/lib.rs:58-64 | `within` lists never name a template twice |

## Left out

- Word layout: a pattern is a set of bit positions. The three `u32` words and the `idx / 32`, `idx % 32` addressing are not modelled. Positions 81..95 stand for the high bits of the third word, and `Not` keeps them as the source does.
- Integer widths: the `u8` counters and queue entries, the `u16` column and box masks of `fill`, and `Template`'s `u16` index are unbounded naturals. `CascadeInRange` shows that every queued value is below 9.
- The count 46656 of layouts is not proved. The catalog is characterised instead: legal, ordered, complete.
- `leak_vec_as_array` and the `OnceLock` cache: the catalog is the parameter `catalog`. `All()` is what `fill` builds.
- `Display` for `Pattern`, `Possibilities` and `Solution`, and the final `format!` in `solve`: the output is the digit grid of `to_grid`.
- The `wasm_bindgen` export, the `possibilities` binary and the benchmark harness.
- `within` is a lazy iterator; the model builds its whole list. `unique` reads at most two entries, which gives the same result.
- Solver.Solve: completeness is stated for a catalog holding every legal layout (`FullCatalog`), which `All()` is (`AllFull`). The outcome of the clue loop is the ghost result `r`, since the source only returns an empty list. Distinctness of the grids is stated for a catalog without repetitions, which `All()` is (`CatalogOrdered`).
- Solver.Search: for `max_solutions == 0` the completeness clause says nothing, since the output is never shorter than 0. The search then follows the first fitting template at each depth and records at most one solution, possibly none.
- Solver.Prepare: the machine's state after an error is not described, as in the source, where the machine is dropped.
- Solver.Try: it is the body of `search`'s loop, split out as a method that calls `Search` for the rest of the entries.
- Solver.Search: distinctness is stated for entries whose lists repeat no template. `within` lists never do (`ListedDistinct`).
- Solver.ApplyClues: it is `solve`'s clue loop, split out as a method. Each of its iterations, and each of `prepare`'s, is `SetClue`. `prepare`'s inner loop is `SetRow`.
- Setup.Possibilities.Eliminate: the counter updates are the method `LowerCounts`, which calls `LowerCellCount` … `LowerBoxCount` in the source's order. The body of `work`'s loop is `Step`, which uses `Pop`.
- Solver.SortByLength: `sort_by_key` is stable; the model proves sortedness and permutation, not stability. The order of solutions beyond "each digit's templates in catalog order" is not pinned down.
- Panics: an index out of range, and `find_in_*` on an empty group, are excluded by preconditions. The contracts show these cases do not occur.
- Setup.Possibilities.Set: requires `1 <= digit`. For `digit == 0` the source's `digit as usize - 1` underflows. A digit above 9 removes every digit of the cell and fails.
- Solver.Solve: requires at least 81 entries in `puzzle`; the source panics on a shorter one.
- `max_solutions == 0`: the source's check after each nested call always succeeds, so `search` returns after its first nested call at every depth. `Cap` bounds the output at one solution.
