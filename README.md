# A verified model of a generalised Sudoku engine

This project models, in Dafny, the core of a Java engine for generalised Sudoku puzzles. A
puzzle is a grid of cells. Rules are sets of positions, each tied to an alphabet of symbols.
Zones are templates that place row, column and block rules. The modelled parts are:

- **The constraint data model.** Positions (`Positions`), position-set rules and their row,
  column and block constructors (`Rules`), cells (`Cells`), the zone template (`Sudokus`) and
  the classic zone with its two-factor block shape (`Factors`, `SudokuClassics`).
- **The solver bookkeeping** (`Solvers`). A stack of inserted positions, and a history of
  rolled-back symbols per grid state and position, taken away from the grid's candidates. The
  history map is keyed by the one grid object, which changes after it is put in. `HashMap`
  finds an entry when the stored hash code equals the key's current one and the keys are the
  same object, which they always are here. So a lookup finds the entries recorded while the
  grid had the same hash code, and the model keys the history by the hash code of the grid's
  contents.
- **The running-minimum accumulators** (`Entropies`).
- **The three solvers.**
  - The wave-function collapse: entropy matrix, propagation, solve loop and solution count
    (`Wfc`).
  - The row-major backtracking search (`Backtracks`).
  - The optimized backtracking search: most constrained cell, candidate cache, forward check,
    hidden singles and unwinding (`OptimizedBacktracks`).
- **The puzzle generator**: solving, swapping same-symbol cells and deleting cells while the
  solution stays unique (`Generators`).
- **The three superseded revisions still in the tree**: the legacy grid (`LegacyGrids`), the
  map-based rule (`LegacyRules`) and the zone with parallel lists (`LegacyZones`).

The solvers work on a `Grid` whose source is not part of this model. `Grids` states it as an
assumption, a value holding:

- the present cells by position, the rules and the alphabets;
- `isInsideGrid`: holds only of present cells, empty or filled;
- `getPossiblePlays`: nothing for an absent or filled cell or one without rules; otherwise the
  intersection, over the cell's rules, of each rule's alphabet minus the symbols the rule's
  other cells hold;
- `insertSymbol`: takes effect only when legal and otherwise leaves the grid unchanged;
- `resetSymbol`: clears the cell;
- `isComplete`: every present cell holds a symbol;
- `hashCode`: a function of the symbols the present cells hold, passed in as a parameter and
  shared by the solver history and the solution count.

This behaviour is assumed; the grid tests are consistent with it. They hold single examples (an insert, an out-of-range insert, a reset, completeness, the plays of an empty grid), so the Grid rows cite them as examples of the assumed behaviour, not as its proof. Objects whose fields the source updates
in place are classes: positions (`MutablePosition`), rules, cells, zones, accumulators, solvers,
the generator and the legacy classes. The grid is a value that the solver object owns.

## Model

| member | source | states |
|---|---|---|
| Positions.Wrap32 | app/src/main/java/sudoku/Position.java:200-202 | the 32-bit truncation `Objects.hash` undergoes: the result is a Java `int` congruent to its argument modulo 2^32 |
| Positions.Position.Max | app/src/main/java/sudoku/Position.java:145-147 | each coordinate of `max` is at least both operands' and equal to one of them |
| Positions.Position.Min | app/src/main/java/sudoku/Position.java:156-158 | each coordinate of `min` is at most both operands' and equal to one of them |
| Positions.Position.HashCode | app/src/main/java/sudoku/Position.java:200-202 | `hashCode` is `31 * (31 + x) + y` wrapped to a Java `int`, so always in the `int` range |
| Positions.Position.Add | app/src/main/java/sudoku/Position.java:58-60 | the sum is the position the other one is offset from this one by: subtracting this position from it gives the other |
| Positions.Position.AddX | app/src/main/java/sudoku/Position.java:68-70 | `addX(d)` moves x by exactly `d` and keeps y |
| Positions.Position.AddY | app/src/main/java/sudoku/Position.java:78-80 | `addY(d)` keeps x and moves y by exactly `d` |
| Positions.Position.AddBoth | app/src/main/java/sudoku/Position.java:88-90 | `add(z)` moves both coordinates by exactly `z` |
| Positions.Position.Negative | app/src/main/java/sudoku/Position.java:165-167 | `negative` is the inverse of `add`: added to the position on either side it gives `(0,0)` |
| Positions.Position.ToString | app/src/main/java/sudoku/Position.java:174-176 | the text is at least five characters long, opens with `(` and closes with `)` |
| Positions.ToStringParses | app/src/main/java/sudoku/Position.java:174-176 | the text reads back: up to the first comma stands the text of `x`, after it up to the closing bracket the text of `y` |
| Positions.Uniform | app/src/main/java/sudoku/Position.java:28-31 | `Position(z)` has both coordinates equal to `z` |
| Positions.ShiftsAreAdditions | app/src/main/java/sudoku/Position.java:58-90 | `addX(d)`, `addY(d)` and `add(d)` are `add` with `(d,0)`, `(0,d)` and `(d,d)` |
| Positions.AddGroup | app/src/main/java/sudoku/Position.java:58-60 | `add` is commutative and associative with unit `(0,0)`; `negative` is its inverse and an involution |
| Positions.MinMaxBracket | app/src/main/java/sudoku/Position.java:145-158 | `min` and `max` are commutative and `min` lies below `max` on both axes |
| Positions.ToStringInjective | app/src/main/java/sudoku/Position.java:174-176 | two positions print the same `"(x,y)"` text exactly when they are equal, as `equals` decides |
| Positions.HashCodeSeparatesSmallGrids | app/src/main/java/sudoku/Position.java:185-202 | equal positions hash alike, and distinct positions of a grid narrower and shorter than 31 never collide |
| Positions.MutablePosition.constructor | app/src/main/java/sudoku/Position.java:18-21 | the new object holds `(x, y)` |
| Positions.MutablePosition.Diagonal | app/src/main/java/sudoku/Position.java:28-31 | the new object holds `(z, z)` |
| Positions.MutablePosition.Addi | app/src/main/java/sudoku/Position.java:97-100 | `addi` leaves in the object what `add` returns |
| Positions.MutablePosition.AddXi | app/src/main/java/sudoku/Position.java:107-109 | `addXi` leaves in the object what `addX` returns |
| Positions.MutablePosition.AddYi | app/src/main/java/sudoku/Position.java:116-118 | `addYi` leaves in the object what `addY` returns |
| Positions.MutablePosition.SetX | app/src/main/java/sudoku/Position.java:125-127 | `setX` changes x only |
| Positions.MutablePosition.SetY | app/src/main/java/sudoku/Position.java:134-136 | `setY` changes y only |
| Text.IntToStringInjective | app/src/main/java/sudoku/Position.java:174-176 | the decimal text of an `int`, as string concatenation writes it, determines the number |
| Lists.IndexOf | app/src/main/java/sudoku/Sudoku.java:95-99 | `indexOf` is -1 exactly when the value is absent, and otherwise the first index holding it |
| Lists.RemoveFirstIsRemoveAtIndexOf | app/src/main/java/sudoku/Cell.java:56-58 | `remove(Object)` drops the element at the value's first index, and changes nothing when the value is absent |
| Lists.RemoveFirstMultiset | app/src/main/java/sudoku/Cell.java:56-58 | removing a present value shortens the list by one and takes exactly one copy of it out |
| Rules.RectMembers | app/src/main/java/sudoku/rule/BlockRule.java:50-54 | a position is in the block's rectangle exactly when both coordinates lie between the (inclusive) corners |
| Rules.HSegSize | app/src/main/java/sudoku/rule/RowRule.java:34-39 | a row segment from `x0` to `x1` holds `x1 - x0 + 1` cells, none when `x1 < x0` |
| Rules.VSegSize | app/src/main/java/sudoku/rule/ColumnRule.java:35-40 | a column segment from `y0` to `y1` holds `y1 - y0 + 1` cells, none when `y1 < y0` |
| Rules.RectSize | app/src/main/java/sudoku/rule/BlockRule.java:50-54 | a block between ordered corners holds width × height cells |
| Rules.TranslateSize | app/src/main/java/sudoku/rule/Rule.java:67-74 | moving a rule by an offset keeps its number of cells (translation is injective) |
| Rules.TranslateInverse | app/src/main/java/sudoku/rule/Rule.java:67-74 | moving by an offset and then by its negation gives back the original cells |
| Rules.AppendedIsJoinedWithSeparator | app/src/main/java/sudoku/rule/Rule.java:102-107 | the loop's text, `p, ` after every cell, is the comma-joined list plus one trailing separator, which the length cut removes |
| Rules.NonEmptyEnumeration | app/src/main/java/sudoku/rule/Rule.java:105-107 | an enumeration of a non-empty set of cells is non-empty, so the cut of two characters is in range |
| Rules.Rule.Of | app/src/main/java/sudoku/rule/Rule.java:20-42 | a rule built from a set holds exactly that set, symbol index 0 (also `RowRule(Set)`, `ColumnRule(Set)`, `BlockRule(Set)`) |
| Rules.Rule.Single | app/src/main/java/sudoku/rule/Rule.java:29-32 | a one-position rule holds exactly that position |
| Rules.Rule.RowFrom | app/src/main/java/sudoku/rule/RowRule.java:34-39 | the rule holds exactly the cells `start.x .. start.x + length - 1` of start's row, none when `length <= 0` |
| Rules.Rule.RowBetween | app/src/main/java/sudoku/rule/RowRule.java:47-64 | two ends on different rows give an empty rule; otherwise the rule holds the row from the smaller to the larger x, whichever order the ends came in |
| Rules.Rule.ColumnFrom | app/src/main/java/sudoku/rule/ColumnRule.java:35-40 | the rule holds exactly the cells `start.y .. start.y + height - 1` of start's column, none when `height <= 0` |
| Rules.Rule.ColumnBetween | app/src/main/java/sudoku/rule/ColumnRule.java:48-65 | two ends on different columns give an empty rule; otherwise the column from the smaller to the larger y |
| Rules.Rule.BlockBetween | app/src/main/java/sudoku/rule/BlockRule.java:35-55 | the two corner objects are normalised in place to (min, min) and (max, max), and the rule holds exactly the rectangle between them |
| Rules.Rule.Add | app/src/main/java/sudoku/rule/Rule.java:58-60 | the position joins the rule's set; the symbol index is unchanged |
| Rules.Rule.OffsetRepositioning | app/src/main/java/sudoku/rule/Rule.java:67-74 | the new set is the old set moved by the offset; the symbol index is unchanged |
| Rules.Rule.SetIndexSymbols | app/src/main/java/sudoku/rule/Rule.java:81-92 | the symbol index becomes the argument; the cells are unchanged |
| Rules.Rule.ToString | app/src/main/java/sudoku/rule/Rule.java:99-110 | the text is `Rule Positions: [` followed by every cell of the rule exactly once, in some enumeration order, separated by `, `, and `]`; an empty rule prints `Rule Positions: []` |
| Cells.CountBlocksBounds | app/src/main/java/sudoku/Cell.java:129-137 | the number of block rules of a cell is at most its number of rules, equal to it exactly when every rule is a block and zero exactly when none is |
| Cells.CountBlocksAppend | app/src/main/java/sudoku/Cell.java:129-137 | counting block rules is additive over a concatenation of rule lists |
| Cells.Cell.WithRules | app/src/main/java/sudoku/Cell.java:38-40 | a new cell is empty and holds the given rule ids |
| Cells.Cell.InRule | app/src/main/java/sudoku/Cell.java:30-33 | `Cell(idRule)` is empty and holds that one rule id |
| Cells.Cell.constructor | app/src/main/java/sudoku/Cell.java:38-40 | `Cell()` is empty and holds no rule |
| Cells.Cell.AddRule | app/src/main/java/sudoku/Cell.java:47-49 | the id is appended to the list; the symbol is unchanged |
| Cells.Cell.DeleteRule | app/src/main/java/sudoku/Cell.java:56-58 | `List.remove(Object)`: the first occurrence leaves the list (one fewer in the multiset), and an absent id changes nothing |
| Cells.Cell.InsertSymbol | app/src/main/java/sudoku/Cell.java:65-71 | an empty cell takes the symbol; a filled cell keeps its symbol (the refusal branch) |
| Cells.Cell.ResetSymbol | app/src/main/java/sudoku/Cell.java:101-103 | the cell becomes empty; its rules are unchanged |
| Cells.Cell.GetIdRule | app/src/main/java/sudoku/Cell.java:89-96 | an index in range gives that rule id; any other index gives -1 |
| Cells.Cell.NumberOfRules | app/src/main/java/sudoku/Cell.java:119-121 | the length of the rule list |
| Cells.Cell.NumberOfPrintableRules | app/src/main/java/sudoku/Cell.java:129-137 | no count when one of the cell's rule ids is out of range of the rule list (the source throws `IndexOutOfBoundsException`); otherwise the number of block rules among the cell's rules, at most the number of rules |
| Factors.StripSpec | app/src/main/java/sudoku/sudoku/SudokuClassic.java:16-19 | the inner `while` divides out only copies of `i`, their product times the remainder is the number, and the remainder is no longer divisible by `i` |
| Factors.TrialFromFactors | app/src/main/java/sudoku/sudoku/SudokuClassic.java:13-23 | trial division lists factors of at least 2 whose product is the number, and lists nothing exactly when the number is at most 1 |
| Factors.TrialFromPrime | app/src/main/java/sudoku/sudoku/SudokuClassic.java:13-23 | a prime is found as the single factor left over after the loop (the `number > 1` branch) |
| Factors.TrialFromAscending | app/src/main/java/sudoku/sudoku/SudokuClassic.java:15-20 | starting from a bound below which nothing divides, the factors come out in ascending order, all at least the bound |
| Factors.FactorizationAscending | app/src/main/java/sudoku/sudoku/SudokuClassic.java:13-23 | before the shuffle, the factors are in ascending order |
| Factors.ProductPermutation | app/src/main/java/sudoku/sudoku/SudokuClassic.java:25 | shuffling the factors keeps their product |
| Factors.CombineLeadingSpec | app/src/main/java/sudoku/sudoku/SudokuClassic.java:27-31 | folding the first two factors into their product until two remain keeps the product and the positivity, and leaves `min(n, 2)` factors |
| Factors.PadPairProduct | app/src/main/java/sudoku/sudoku/SudokuClassic.java:33-35 | padding a single factor with 1 gives a pair whose product is the factor |
| Factors.FactorPairSpec | app/src/main/java/sudoku/sudoku/SudokuClassic.java:13-38 | for any shuffle, the result is empty for a number at most 1, and otherwise two positive numbers whose product is the number |
| Factors.PrimePair | app/src/main/java/sudoku/sudoku/SudokuClassic.java:13-38 | for any shuffle, a prime gives `[p, 1]` |
| Factors.TrialDivision | app/src/main/java/sudoku/sudoku/SudokuClassic.java:13-23 | the nested loops compute the trial-division factorisation |
| Factors.Combine | app/src/main/java/sudoku/sudoku/SudokuClassic.java:27-31 | the folding loop computes the fold of the leading factors |
| SudokuClassics.Shuffle | app/src/main/java/sudoku/sudoku/SudokuClassic.java:25 | `Collections.shuffle`: the result is a permutation of the list |
| SudokuClassics.PrimeFactors | app/src/main/java/sudoku/sudoku/SudokuClassic.java:13-38 | empty below 2; otherwise two positive factors whose product is the number; a prime gives the prime and 1 |
| SudokuClassics.SymbolsGrow | app/src/main/java/sudoku/sudoku/SudokuClassic.java:73-79 | the alphabet of size `n` is that of size `n - 1` plus the new, distinct symbol `"n"` |
| SudokuClassics.SymbolsCount | app/src/main/java/sudoku/sudoku/SudokuClassic.java:73-79 | the alphabet "1" .. "size" has exactly `size` symbols (none for a size below 1) |
| SudokuClassics.GenerateSymbols | app/src/main/java/sudoku/sudoku/SudokuClassic.java:73-79 | the loop builds the alphabet "1" .. "size", of `size` distinct symbols |
| SudokuClassics.IndexOfBlock | app/src/main/java/sudoku/sudoku/SudokuClassic.java:44-45 | the loops' block `(x, y)` is the block numbered `y * f0 + x`, and the number gives back `x` and `y` |
| SudokuClassics.BlockOfIndex | app/src/main/java/sudoku/sudoku/SudokuClassic.java:44-45 | every block number is reached by one `(x, y)` of the two loops |
| SudokuClassics.BlockRectInside | app/src/main/java/sudoku/sudoku/SudokuClassic.java:46-57 | each block lies inside the zone's square and holds `size` cells |
| SudokuClassics.BlockInside | app/src/main/java/sudoku/sudoku/SudokuClassic.java:44-59 | the `k`-th block added lies inside the square and holds `size` cells |
| SudokuClassics.BlocksInside | app/src/main/java/sudoku/sudoku/SudokuClassic.java:44-59 | every one of the `size` blocks lies inside the square and holds `size` cells |
| SudokuClassics.InBlockRect | app/src/main/java/sudoku/sudoku/SudokuClassic.java:46-57 | a cell of block `(x, y)` has column `x` and row `y` in block coordinates |
| SudokuClassics.BlocksTile | app/src/main/java/sudoku/sudoku/SudokuClassic.java:44-59 | every cell of the square lies in exactly one block, the one numbered from its block coordinates |
| SudokuClassics.BlockOfPosition | app/src/main/java/sudoku/sudoku/SudokuClassic.java:44-59 | the only block holding a cell is the one numbered from the cell's block coordinates |
| Sudokus.BlocksTileRules | app/src/main/java/sudoku/sudoku/SudokuClassic.java:44-59 | rules holding the blocks cover every cell of the square, and no cell lies in two of them |
| Sudokus.Sudoku.constructor | app/src/main/java/sudoku/sudoku/Sudoku.java:22-40 | the zone is set up exactly when there are at least `size` symbols; otherwise the constructor returns early and the fields keep their defaults |
| Sudokus.Sudoku.WithRules | app/src/main/java/sudoku/sudoku/Sudoku.java:42-59 | no zone exactly when the zone is uninitialised (fewer than `size` symbols) and one of the given rules is empty: the uninitialised square is empty, so only an empty rule fits, and appending it to the missing list throws `NullPointerException`; otherwise an initialised zone holds the given rules that fit, in order, then the `size` full columns, then the `size` full rows, and an uninitialised one holds none |
| Sudokus.Sudoku.AddAll | app/src/main/java/sudoku/sudoku/Sudoku.java:45-47 | throws exactly when the zone is uninitialised and one of the rules fits the square, leaving the rules unchanged; otherwise the loop appends exactly the given rules that fit, in order |
| Sudokus.EmptyRulesFit | app/src/main/java/sudoku/sudoku/Sudoku.java:45-47 | on an uninitialised zone, whose size is 0, a rule fits the square exactly when it has no position, so the first such rule is where the append throws |
| Sudokus.Sudoku.Classic | app/src/main/java/sudoku/sudoku/SudokuClassic.java:40-71 | a classic zone has the alphabet "1" .. "size" and `3 * size` rules: `size` blocks of `size` cells that tile the square, then the `size` rows, then the `size` columns |
| Sudokus.Sudoku.AddBlocks | app/src/main/java/sudoku/sudoku/SudokuClassic.java:44-59 | the two loops add the `size` blocks of the shape, in order, each inside the square with `size` cells |
| Sudokus.Sudoku.AddBlockRow | app/src/main/java/sudoku/sudoku/SudokuClassic.java:45-58 | the inner loop adds the `f0` blocks of one block row |
| Sudokus.Sudoku.GetMinPosition | app/src/main/java/sudoku/sudoku/Sudoku.java:69-71 | the zone's offset |
| Sudokus.Sudoku.GetMaxPosition | app/src/main/java/sudoku/sudoku/Sudoku.java:73-75 | the corner `size` past the offset on both axes; nothing exactly when the offset is null, where the source throws `NullPointerException` |
| Sudokus.Sudoku.Add | app/src/main/java/sudoku/sudoku/Sudoku.java:81-94 | throws exactly when the zone is uninitialised and the rule fits; otherwise a rule is appended exactly when every one of its positions lies inside the square `[0, size)²`, and the rules are unchanged when it does not |
| Sudokus.Sudoku.IsInsideOfSudoku | app/src/main/java/sudoku/sudoku/Sudoku.java:81-84 | a position is inside exactly when it lies in the square `[0, size)²` |
| Sudokus.Sudoku.GetNumberRule | app/src/main/java/sudoku/sudoku/Sudoku.java:96-98 | the number of rules; nothing exactly when the zone is uninitialised, where the source throws `NullPointerException` on the null list |
| Sudokus.Sudoku.GetRule | app/src/main/java/sudoku/sudoku/Sudoku.java:100-102 | the rule at the index; nothing exactly when the zone is uninitialised (`NullPointerException`) or the index is out of range (`IndexOutOfBoundsException`) |
| Sudokus.Sudoku.Remove | app/src/main/java/sudoku/sudoku/Sudoku.java:104-106 | throws exactly when the zone is uninitialised, leaving the rules unchanged; otherwise `List.remove(Object)`: the first occurrence leaves the list, an absent rule changes nothing |
| Sudokus.Sudoku.AddColumnRules | app/src/main/java/sudoku/sudoku/Sudoku.java:108-112 | the old rules are kept and followed by the `size` full columns, in order |
| Sudokus.Sudoku.AddRowRules | app/src/main/java/sudoku/sudoku/Sudoku.java:114-118 | the old rules are kept and followed by the `size` full rows, in order |
| Solvers.SomeImageSize | app/src/main/java/solvers/Solver.java:66-70 | recording symbols as tried entries is injective, so the tried set is as large as the symbols recorded |
| Solvers.FilteredPlaysBounds | app/src/main/java/solvers/Solver.java:66-70 | the solver's plays are a subset of the grid's, lose at most one play per tried entry, and are all of the grid's when nothing was tried |
| Solvers.UnfilteredBound | app/src/main/java/solvers/Solver.java:66-70 | `removeAll` of the tried symbols leaves a subset that loses at most as many elements as were tried |
| Solvers.FilledAlongStart | app/src/main/java/solvers/Solver.java:19-23 | a fresh solver with an empty insertion stack has filled nothing |
| Solvers.FilledAlongNil | app/src/main/java/solvers/Solver.java:29-32 | with an empty insertion stack the grid is the starting grid |
| Solvers.FilledAlongExtends | app/src/main/java/solvers/Solver.java:47-50 | a grid reached by inserting along the stack extends the starting grid: every filled cell keeps its symbol |
| Solvers.FilledAlongPush | app/src/main/java/solvers/Solver.java:47-50 | inserting a possible play and pushing its position keeps the stack an exact record of the filled cells beyond the starting grid |
| Solvers.FilledAlongPop | app/src/main/java/solvers/Solver.java:29-36 | popping the last position and clearing its cell keeps that record |
| Solvers.FilledAlongConcat | app/src/main/java/solvers/Solver.java:47-50 | two successive runs of insertions compose into one record |
| Solvers.Solver.constructor | app/src/main/java/solvers/Solver.java:19-23 | the solver holds the grid, the grid hash function, an empty stack and an empty history |
| Solvers.Solver.InsertSymbol | app/src/main/java/solvers/Solver.java:47-50 | the grid inserts the symbol and the position is pushed, whether or not the grid accepted it; the history is unchanged |
| Solvers.Solver.RollBack | app/src/main/java/solvers/Solver.java:29-45 | nothing on an empty stack; otherwise the last position is popped, its cell cleared, and its previous symbol (possibly none) added to that position's history in the history of the cleared grid's hash code, so the current state then lists it as tried; no history entry of any state ever shrinks |
| Solvers.Solver.HistoryInsert | app/src/main/java/solvers/Solver.java:52-64 | the symbols recorded at the position in the history of the current grid state, found by the hash code of the grid's contents; nothing when the state or the position has no entry |
| Solvers.Solver.PossiblePlays | app/src/main/java/solvers/Solver.java:66-70 | exactly the grid's possible plays not tried at the position in the current state: a subset of the grid's, and all of them when nothing was tried |
| Solvers.HistoryGrowsTried | app/src/main/java/solvers/Solver.java:29-45 | when no history entry of any state shrinks, the symbols tried at a position in any given state only grow |
| Solvers.Solver.Clear | app/src/main/java/solvers/Solver.java:19-23 | the stack and the history are emptied, the grid is kept |
| Solvers.Solver.ChooseRandomSymbol | app/src/main/java/solvers/Solver.java:72-77 | some member of the set; an empty set yields no symbol (the source throws) |
| Solvers.Solver.ChooseRandomPosition | app/src/main/java/solvers/Solver.java:79-87 | some member of the set; an empty set yields no position (the source throws) |
| Entropies.FoldIsMinimum | app/src/main/java/solvers/wfc/Entropy.java:16-56 | after any additions to a fresh `Entropy`, its value is the least of Integer.MAX_VALUE and the added values, and its positions are exactly those added with that value |
| Entropies.AddAfterMerge | app/src/main/java/solvers/wfc/Entropy.java:34-85 | adding a cell after a merge is merging with the accumulator that received the cell |
| Entropies.FoldAppend | app/src/main/java/solvers/wfc/Entropy.java:66-85 | accumulating two runs of additions separately and merging them equals accumulating them in one pass, so merged partial results are the global minimum |
| Entropies.MatchingBelow | app/src/main/java/solvers/wfc/CellsEntropy.java:22-30 | no position was added with a value below every added value |
| Entropies.RunFoldIsMinimum | app/src/main/java/solvers/wfc/CellsEntropy.java:11-30 | after any additions to a fresh `CellsEntropy`, the value is the same minimum, and the list holds exactly the positions added with it, in order, duplicates kept |
| Entropies.RunAddAfterMerge | app/src/main/java/solvers/wfc/CellsEntropy.java:22-47 | the list version of `AddAfterMerge` |
| Entropies.RunFoldAppend | app/src/main/java/solvers/wfc/CellsEntropy.java:40-47 | merging separately built lists equals building one list from both runs of additions |
| Entropies.Entropy.constructor | app/src/main/java/solvers/wfc/Entropy.java:16-19 | a fresh accumulator is the result of no addition: value Integer.MAX_VALUE, no position |
| Entropies.Entropy.Of | app/src/main/java/solvers/wfc/Entropy.java:21-32 | value `entropy` with the one position |
| Entropies.Entropy.AddCell | app/src/main/java/solvers/wfc/Entropy.java:34-56 | the new state is one addition step past the old one |
| Entropies.Entropy.Merge | app/src/main/java/solvers/wfc/Entropy.java:66-85 | the new state is the merge of the two old states |
| Entropies.CellsEntropy.constructor | app/src/main/java/solvers/wfc/CellsEntropy.java:11-14 | a fresh accumulator: value Integer.MAX_VALUE, empty list |
| Entropies.CellsEntropy.Of | app/src/main/java/solvers/wfc/CellsEntropy.java:16-20 | value `entropy` with the one position |
| Entropies.CellsEntropy.AddCell | app/src/main/java/solvers/wfc/CellsEntropy.java:22-30 | the new state is one addition step past the old one |
| Entropies.CellsEntropy.Merge | app/src/main/java/solvers/wfc/CellsEntropy.java:40-47 | the new state is the merge of the two old states |
| Wfc.RefreshAgrees | app/src/main/java/solvers/wfc/WaveFunctionCollapse.java:274-292 | after a one-cell change, recomputing the cells of the rules touched by the symbol keeps every empty cell's entropy equal to its number of possible plays |
| Wfc.InsertKeepsSolverInv | app/src/main/java/solvers/wfc/WaveFunctionCollapse.java:124-128 | inserting a possible play and propagating it keeps the solver invariant: the stack records exactly the cells filled since the start, consistency is kept, and the entropies are right |
| Wfc.TrailTop | app/src/main/java/solvers/wfc/WaveFunctionCollapse.java:94-96 | the top of the stack is a filled cell with at least one rule, whose symbol lies in every one of its rules' alphabets |
| Wfc.RollBackKeepsSolverInv | app/src/main/java/solvers/wfc/WaveFunctionCollapse.java:88-111 | rolling back the last insert and propagating the removed symbol keeps the solver invariant |
| Wfc.MinimumStart | app/src/main/java/solvers/wfc/WaveFunctionCollapse.java:231-233 | before the scan the accumulator holds the minimum of nothing |
| Wfc.MinimumStep | app/src/main/java/solvers/wfc/WaveFunctionCollapse.java:233-249 | scanning one more position (skipping filled or absent cells) keeps the accumulator the minimum of the positions scanned |
| Wfc.MinimumRow | app/src/main/java/solvers/wfc/WaveFunctionCollapse.java:233-234 | finishing a row is starting the next one |
| Wfc.MinimumEnd | app/src/main/java/solvers/wfc/WaveFunctionCollapse.java:231-252 | after the full scan the accumulator holds the least score over all empty cells and exactly the cells that reach it |
| Wfc.PlayLeft | app/src/main/java/solvers/wfc/WaveFunctionCollapse.java:160-165 | a cell whose entropy exceeds the number of symbols tried there has a play left |
| Wfc.PlayableChoice | app/src/main/java/solvers/wfc/WaveFunctionCollapse.java:157-175 | at a cell of least positive score, some play is left, and every play left is one the grid allows |
| Wfc.HashesAppend | app/src/main/java/solvers/wfc/WaveFunctionCollapse.java:202-204 | recording one more solution adds its hash code to the set |
| Wfc.ImageNoLarger | app/src/main/java/solvers/wfc/WaveFunctionCollapse.java:203 | there are never more hash codes than distinct solutions |
| Wfc.RecordOne | app/src/main/java/solvers/wfc/WaveFunctionCollapse.java:202-204 | a complete grid reached from the start by the recorded insertions is a solution extending the start, consistent when the start was |
| Wfc.NoCandidateWhenComplete | app/src/main/java/solvers/wfc/WaveFunctionCollapse.java:220-222 | on a complete grid the scan finds no empty cell: no position, score Integer.MAX_VALUE |
| Wfc.WaveFunctionCollapse.constructor | app/src/main/java/solvers/wfc/WaveFunctionCollapse.java:38-49 | the solver holds the grid and the grid hash function, empty bookkeeping, and a `size.y` by `size.x` entropy matrix |
| Wfc.WaveFunctionCollapse.FillEntropy | app/src/main/java/solvers/wfc/WaveFunctionCollapse.java:57-76 | every matrix entry is -1 for an absent or filled cell and otherwise the solver's number of possible plays there |
| Wfc.WaveFunctionCollapse.FillFresh | app/src/main/java/solvers/wfc/WaveFunctionCollapse.java:137-139 | with an empty history the filled matrix gives every empty cell its number of possible plays |
| Wfc.WaveFunctionCollapse.TouchedPositions | app/src/main/java/solvers/wfc/WaveFunctionCollapse.java:274-283 | collects exactly the positions of the cell's rules whose alphabet holds the symbol |
| Wfc.WaveFunctionCollapse.Recompute | app/src/main/java/solvers/wfc/WaveFunctionCollapse.java:285-292 | each collected position's entry becomes its number of possible plays; every other entry is unchanged |
| Wfc.WaveFunctionCollapse.PropagateEntropy | app/src/main/java/solvers/wfc/WaveFunctionCollapse.java:257-293 | the entries of exactly the positions of the rules of the cell whose alphabet holds the symbol are recomputed from the grid |
| Wfc.WaveFunctionCollapse.InsertSymbol | app/src/main/java/solvers/wfc/WaveFunctionCollapse.java:124-128 | the shared insert followed by propagation; inserting a possible play keeps the solver invariant |
| Wfc.WaveFunctionCollapse.RollBack | app/src/main/java/solvers/wfc/WaveFunctionCollapse.java:88-111 | nothing on an empty stack; otherwise the shared rollback, recording the removed symbol in the history of the cleared grid's state, followed by propagation of the removed symbol; the history only grows and the solver invariant is kept |
| Wfc.WaveFunctionCollapse.GetPositionsMinimumEntropy | app/src/main/java/solvers/wfc/WaveFunctionCollapse.java:231-252 | a fresh `Entropy` holding the least score (entropy minus the symbols tried in the current grid state) over the present cells holding no symbol, and exactly the cells reaching it |
| Wfc.WaveFunctionCollapse.ChooseAndInsert | app/src/main/java/solvers/wfc/WaveFunctionCollapse.java:160-175 | inserts some possible play at some cell of least score; the random choices cannot fail |
| Wfc.WaveFunctionCollapse.Advance | app/src/main/java/solvers/wfc/WaveFunctionCollapse.java:145-176 | rolls back when no candidate is left or the least score is not positive, inserts otherwise; the invariant is kept |
| Wfc.WaveFunctionCollapse.Solve | app/src/main/java/solvers/wfc/WaveFunctionCollapse.java:136-188 | the grid only gains symbols, stays consistent when it was, and when the loop ends it is complete or back to its start (nothing was left to undo) |
| Wfc.WaveFunctionCollapse.CountTurn | app/src/main/java/solvers/wfc/WaveFunctionCollapse.java:202-219 | a complete grid has its hash code (the solver's hash function) recorded and is rolled back; any other grid advances; every recorded code is that of a solution |
| Wfc.WaveFunctionCollapse.CountAndScan | app/src/main/java/solvers/wfc/WaveFunctionCollapse.java:200-221 | one turn and the next scan; on a complete grid with an empty stack the scan finds nothing |
| Wfc.WaveFunctionCollapse.CountSolutions | app/src/main/java/solvers/wfc/WaveFunctionCollapse.java:190-225 | every grid counted is a complete, consistent extension of the start, the count is the number of distinct hash codes (at most the number of distinct solutions), and when the loop ends the grid is back to its start |
| Wfc.WaveFunctionCollapse.GetNumberOfSolutions | app/src/main/java/solvers/wfc/WaveFunctionCollapse.java:190-225 | as written: the same guarantees, and on a grid that is already complete the loop never ends |
| Wfc.WaveFunctionCollapse.GetNumberOfSolutionsFixed | app/src/main/java/solvers/wfc/WaveFunctionCollapse.java:190-225 | with the exit on an exhausted stack: the same guarantees, and a complete grid counts as exactly one solution |
| Backtracks.BeforeNext | app/src/main/java/solvers/backtrack/Backtrack.java:41-42 | the cells before the next cell are those before the current one plus the current one |
| Backtracks.CompletionFromStart | app/src/main/java/solvers/backtrack/Backtrack.java:19-22 | a completion from cell (0, 0) is exactly a solution of the grid: complete, consistent, and extending it |
| Backtracks.SolutionSymbolIsPlay | app/src/main/java/solvers/backtrack/Backtrack.java:51-53 | the symbol a solution puts in an empty ruled cell is one of the grid's possible plays there |
| Backtracks.CompletionSkips | app/src/main/java/solvers/backtrack/Backtrack.java:47-49 | a completion from a filled or absent cell is one from the next cell |
| Backtracks.CompletionThrough | app/src/main/java/solvers/backtrack/Backtrack.java:51-59 | a completion from an empty cell puts a possible play in it and completes the grid with that play from the next cell |
| Backtracks.NoCompletionThroughAny | app/src/main/java/solvers/backtrack/Backtrack.java:53-64 | when no possible play leads to a completion from the next cell, there is no completion from this one |
| Backtracks.SkipCarries | app/src/main/java/solvers/backtrack/Backtrack.java:47-49 | what the recursive call promises from the next cell carries over to this filled or absent cell |
| Backtracks.InsertFillsCell | app/src/main/java/solvers/backtrack/Backtrack.java:53-59 | a successful recursive call after inserting a legal play leaves a grid that fills every cell from this one on and is consistent when the grid was |
| Backtracks.Backtrack.constructor | app/src/main/java/solvers/backtrack/Backtrack.java:14-16 | the solver holds the grid and the grid hash function, with empty bookkeeping |
| Backtracks.Backtrack.Solve | app/src/main/java/solvers/backtrack/Backtrack.java:19-23 | the grid only gains symbols, stays consistent when it was, ends complete or unchanged, and (for a grid whose every cell has a rule) ends complete whenever a solution exists |
| Backtracks.Backtrack.GetNumberOfSolutions | app/src/main/java/solvers/backtrack/Backtrack.java:26-28 | always -1 |
| Backtracks.Backtrack.Backtrack | app/src/main/java/solvers/backtrack/Backtrack.java:30-65 | on true, every cell from (row, col) on is filled and earlier cells are untouched; on false the grid is unchanged and (with every cell ruled) no completion from (row, col) exists |
| Backtracks.Backtrack.TryPlays | app/src/main/java/solvers/backtrack/Backtrack.java:51-64 | the loop over the possible plays: the same promises for an empty cell |
| Backtracks.Backtrack.TryValue | app/src/main/java/solvers/backtrack/Backtrack.java:54-61 | one play: insert, recurse, and reset on failure; on failure the grid is unchanged and no completion goes through that play |
| Solvers.HistoryGrowsTransitive | app/src/main/java/solvers/Solver.java:29-45 | the growth of the history of every state over several roll-backs composes |
| OptimizedBacktracks.CandidatesSound | app/src/main/java/solvers/backtrack/BacktrackOptimized.java:456-458 | a sound cache only answers plays the grid allows, fewer than Integer.MAX_VALUE of them when the alphabets are smaller than that |
| OptimizedBacktracks.CandidatesCoherent | app/src/main/java/solvers/backtrack/BacktrackOptimized.java:456-458 | a coherent cache answers exactly what the solver's `getPossiblePlays` would compute now |
| OptimizedBacktracks.RefinesAnswers | app/src/main/java/solvers/backtrack/BacktrackOptimized.java:456-458 | a cache that only gained `computeIfAbsent` answers gives the same answer everywhere |
| OptimizedBacktracks.FetchRefines | app/src/main/java/solvers/backtrack/BacktrackOptimized.java:456-458 | `computeIfAbsent` adds the position's answer and keeps the cache sound and coherent |
| OptimizedBacktracks.RefinesTransitive | app/src/main/java/solvers/backtrack/BacktrackOptimized.java:456-458 | several lookups in a row still answer as the cache they started from |
| OptimizedBacktracks.InvalidatedKeeps | app/src/main/java/solvers/backtrack/BacktrackOptimized.java:469-479 | after a one-cell change, dropping the entries of the cell and of every cell sharing a rule with it keeps the cache sound, and coherent when the history changed at most at that cell |
| OptimizedBacktracks.InvalidatedShape | app/src/main/java/solvers/backtrack/BacktrackOptimized.java:469-479 | what is invalidated depends only on the cell's rules, not on the symbols |
| OptimizedBacktracks.ResetOfEmpty | app/src/main/java/solvers/backtrack/BacktrackOptimized.java:165-173 | clearing an empty or absent cell changes nothing |
| OptimizedBacktracks.SinglesInStep | app/src/main/java/solvers/backtrack/BacktrackOptimized.java:322-342 | looking at one more cell adds it to the singles exactly when it is another empty cell with one candidate |
| OptimizedBacktracks.SinglesInRelated | app/src/main/java/solvers/backtrack/BacktrackOptimized.java:322-342 | the singles over all cells of the rules of `p` are the neighbours of `p` with exactly one candidate |
| OptimizedBacktracks.RelatedByPrefix | app/src/main/java/solvers/backtrack/BacktrackOptimized.java:325-327 | the cells of the first `i + 1` rules are those of the first `i` plus those of rule `i` |
| OptimizedBacktracks.WipeoutAt | app/src/main/java/solvers/backtrack/BacktrackOptimized.java:356-366 | an empty cell without candidates in a rule of `p` makes the forward check fail |
| OptimizedBacktracks.ZeroMost | app/src/main/java/solvers/backtrack/BacktrackOptimized.java:213-218 | the early return on the first cell without candidates meets the specification of `findMostConstrainedCell` |
| OptimizedBacktracks.ScanTakes | app/src/main/java/solvers/backtrack/BacktrackOptimized.java:221-238 | a cell with fewer candidates than the leader, or as few and more rules, becomes the leader |
| OptimizedBacktracks.ScanKeeps | app/src/main/java/solvers/backtrack/BacktrackOptimized.java:221-239 | otherwise the leader stays |
| OptimizedBacktracks.BeforeStep | app/src/main/java/solvers/backtrack/BacktrackOptimized.java:198-199 | the cells scanned after `(x, y)` are those before it plus itself |
| OptimizedBacktracks.ScanSkip | app/src/main/java/solvers/backtrack/BacktrackOptimized.java:204-206 | passing a filled or absent cell keeps the scan state |
| OptimizedBacktracks.ScanNextRow | app/src/main/java/solvers/backtrack/BacktrackOptimized.java:198-199 | the end of a row is the start of the next |
| OptimizedBacktracks.ZeroFound | app/src/main/java/solvers/backtrack/BacktrackOptimized.java:213-218 | a zero-candidate cell found while scanning is the first empty cell without candidates |
| OptimizedBacktracks.CandidatesPostZero | app/src/main/java/solvers/backtrack/BacktrackOptimized.java:208-210 | the scan's own lookups do not change any answer |
| OptimizedBacktracks.ScanDone | app/src/main/java/solvers/backtrack/BacktrackOptimized.java:193-244 | the full scan meets the specification of `findMostConstrainedCell` |
| OptimizedBacktracks.BacktrackOptimized.constructor | app/src/main/java/solvers/backtrack/BacktrackOptimized.java:48-55 | the solver holds the grid and the grid hash function, empty bookkeeping and an empty cache |
| OptimizedBacktracks.BacktrackOptimized.Solve | app/src/main/java/solvers/backtrack/BacktrackOptimized.java:63-68 | the stack records exactly the cells filled since the start, the grid stays consistent when it was, and it ends complete or back to its start with an empty stack |
| OptimizedBacktracks.BacktrackOptimized.GetNumberOfSolutions | app/src/main/java/solvers/backtrack/BacktrackOptimized.java:70-76 | always 0; the stack and the history are emptied |
| OptimizedBacktracks.BacktrackOptimized.BacktrackMinimumRemainingValues | app/src/main/java/solvers/backtrack/BacktrackOptimized.java:83-183 | on true the grid is complete and the cells pushed are exactly those filled; on false the grid and the stack are back to their start; the cache stays sound and the history of every state only grows |
| OptimizedBacktracks.BacktrackOptimized.TryValue | app/src/main/java/solvers/backtrack/BacktrackOptimized.java:112-173 | one candidate: place it, propagate, recurse, and unwind on failure; the same promises |
| OptimizedBacktracks.BacktrackOptimized.Unwind | app/src/main/java/solvers/backtrack/BacktrackOptimized.java:165-173 | popping until the branching cell is on top and then once more gives back the grid and the stack from before the candidate |
| OptimizedBacktracks.BacktrackOptimized.PopOne | app/src/main/java/solvers/backtrack/BacktrackOptimized.java:165-170 | one roll-back pops the last cell of the trail and keeps the record of the rest |
| OptimizedBacktracks.BacktrackOptimized.FindMostConstrainedCell | app/src/main/java/solvers/backtrack/BacktrackOptimized.java:193-244 | none exactly when the grid is complete; else the first empty cell without candidates when there is one; else an empty cell with the fewest candidates, in the most rules among those, the first of those |
| OptimizedBacktracks.BacktrackOptimized.ScanRow | app/src/main/java/solvers/backtrack/BacktrackOptimized.java:199-240 | one row of the scan keeps the scan state, or reports the first cell without candidates |
| OptimizedBacktracks.BacktrackOptimized.ScanCell | app/src/main/java/solvers/backtrack/BacktrackOptimized.java:200-239 | one cell of the scan keeps the scan state, or reports a cell without candidates |
| OptimizedBacktracks.BacktrackOptimized.Lookup | app/src/main/java/solvers/backtrack/BacktrackOptimized.java:208-211 | a cached lookup during the scan answers as the cache at the start of the scan |
| OptimizedBacktracks.BacktrackOptimized.ValidateAndPropagate | app/src/main/java/solvers/backtrack/BacktrackOptimized.java:259-309 | the cells it fills are pushed and recorded, consistency and the soundness of the cache are kept, and success means no neighbour of the cell was left without candidates |
| OptimizedBacktracks.BacktrackOptimized.PropagateSingles | app/src/main/java/solvers/backtrack/BacktrackOptimized.java:292-306 | each hidden single still single is filled and propagated in turn, stopping at the first failure |
| OptimizedBacktracks.BacktrackOptimized.PropagateSingle | app/src/main/java/solvers/backtrack/BacktrackOptimized.java:293-305 | nothing when the cell no longer has one candidate; otherwise its candidate is placed and propagated; the number of empty cells never grows |
| OptimizedBacktracks.BacktrackOptimized.FindHiddenSingles | app/src/main/java/solvers/backtrack/BacktrackOptimized.java:322-342 | exactly the other empty cells sharing a rule with the cell that have one candidate |
| OptimizedBacktracks.BacktrackOptimized.SinglesInRule | app/src/main/java/solvers/backtrack/BacktrackOptimized.java:327-338 | the cells of one rule are added to the singles found so far |
| OptimizedBacktracks.BacktrackOptimized.IsForwardCheckValid | app/src/main/java/solvers/backtrack/BacktrackOptimized.java:353-371 | valid exactly when no other empty cell sharing a rule with the cell is without candidates |
| OptimizedBacktracks.BacktrackOptimized.CandidatesInRule | app/src/main/java/solvers/backtrack/BacktrackOptimized.java:356-368 | one rule of the forward check: all have candidates, or a culprit without candidates is named |
| OptimizedBacktracks.BacktrackOptimized.RollBack | app/src/main/java/solvers/backtrack/BacktrackOptimized.java:420-442 | nothing on an empty stack; otherwise the shared roll-back (recording in the cleared state's history) plus invalidation of the popped cell; the cache stays sound, an entry left valid still agrees with the history it was computed under, and the history only grows |
| OptimizedBacktracks.BacktrackOptimized.Place | app/src/main/java/solvers/backtrack/BacktrackOptimized.java:129-130 | insert and push, then invalidate the cell and its related cells; soundness and consistency are kept, and an entry left valid still agrees with the history it was computed under |
| OptimizedBacktracks.BacktrackOptimized.GetPossiblePlaysWithCache | app/src/main/java/solvers/backtrack/BacktrackOptimized.java:456-458 | the cached set, or the solver's candidates in the current grid state, which are then cached; a cache coherent with the current state stays so |
| OptimizedBacktracks.BacktrackOptimized.InvalidateCache | app/src/main/java/solvers/backtrack/BacktrackOptimized.java:469-479 | the cache loses the entry of the cell and of every position of its rules, and nothing else |
| Generators.DistinctAppend | app/src/main/java/sudoku/GenerateSudoku.java:75-82 | appending a new value to a list without repetitions keeps it without repetitions |
| Generators.CollectFilledColumn | app/src/main/java/sudoku/GenerateSudoku.java:77-81 | the inner loop adds, once each, the filled cells of column `x` to the positions found so far |
| Generators.FilledPositions | app/src/main/java/sudoku/GenerateSudoku.java:75-82 | the collected positions are exactly the filled cells of the grid, each once |
| Generators.CollectSameSymbolColumn | app/src/main/java/sudoku/GenerateSudoku.java:166-171 | the inner loop adds the other cells of column `x` holding the symbol of `p` |
| Generators.FindCaseWithSameSymbol | app/src/main/java/sudoku/GenerateSudoku.java:162-178 | none exactly when no other cell holds the symbol of `p`; otherwise another cell holding it, and `p` itself is filled |
| Generators.TradeRulePositions | app/src/main/java/sudoku/GenerateSudoku.java:133-140 | each rule listed trades `from` for `to` in its positions; every other rule and every symbol index is unchanged |
| Generators.SwapCells | app/src/main/java/sudoku/GenerateSudoku.java:125-146 | the exchange: each cell keeps its symbol and takes the other's rule ids, and their rules trade the two positions |
| Generators.ExchangeableShareNoRule | app/src/main/java/sudoku/GenerateSudoku.java:123-124 | two cells holding the same symbol in a consistent grid share no rule |
| Generators.SwappedRules | app/src/main/java/sudoku/GenerateSudoku.java:133-140 | after the exchange the rules of `p` hold `p2` in place of `p`, those of `p2` hold `p` in place of `p2`, and every other rule is unchanged |
| Generators.ReshuffledAgree | app/src/main/java/sudoku/GenerateSudoku.java:111-154 | grids differing only in which rules hold which cells have the same symbols and alphabets |
| Generators.SwappedCells | app/src/main/java/sudoku/GenerateSudoku.java:141-146 | the two new cells hold their old symbols and each other's rule ids |
| Generators.SwappedWellFormed | app/src/main/java/sudoku/GenerateSudoku.java:123-146 | exchanging two cells holding the same symbol keeps the grid well formed: every cell's rules list it and every rule's cells list the rule |
| Generators.TradeKeepsRuleConsistent | app/src/main/java/sudoku/GenerateSudoku.java:133-140 | a rule trading a cell for one holding the same symbol stays consistent |
| Generators.SwappedConsistent | app/src/main/java/sudoku/GenerateSudoku.java:123-146 | exchanging two cells holding the same symbol keeps the grid consistent |
| Generators.SwitchColumn | app/src/main/java/sudoku/GenerateSudoku.java:117-152 | one column of the exchange loop keeps the grid well formed, consistent and holding the same symbols, and marks the column visited |
| Generators.SwitchRandomCase | app/src/main/java/sudoku/GenerateSudoku.java:111-154 | every cell keeps its symbol, the grid stays well formed and consistent, and only which rules hold which cells changes |
| Generators.NumberOfSolutions | app/src/main/java/sudoku/GenerateSudoku.java:95 | the two backtracking solvers answer -1 and 0 without touching the grid; the wave-function collapse runs its counting loop as written, counts the distinct hash codes of the solutions it reaches and restores the grid when it finishes |
| Generators.ClearOneMore | app/src/main/java/sudoku/GenerateSudoku.java:93 | clearing one more cell is resetting it |
| Generators.RemoveAtDistinct | app/src/main/java/sudoku/GenerateSudoku.java:89 | removing one entry of a list without repetitions removes exactly that value |
| Generators.TryDelete | app/src/main/java/sudoku/GenerateSudoku.java:90-103 | the cell is cleared and the solutions counted; at most one keeps it cleared, more puts the symbol back |
| Generators.ProgressStart | app/src/main/java/sudoku/GenerateSudoku.java:75-86 | before the loop, the list holds the filled cells and nothing is tried or cleared |
| Generators.ProgressNext | app/src/main/java/sudoku/GenerateSudoku.java:88-91 | the position drawn is an untried filled cell, still holding its original symbol |
| Generators.ProgressStep | app/src/main/java/sudoku/GenerateSudoku.java:88-105 | one pass keeps the loop's record of what was tried, cleared and counted |
| Generators.UntriedStep | app/src/main/java/sudoku/GenerateSudoku.java:89 | removing the drawn position marks it tried |
| Generators.UntriedExhausted | app/src/main/java/sudoku/GenerateSudoku.java:87 | an empty list means every filled cell was tried |
| Generators.TallyStep | app/src/main/java/sudoku/GenerateSudoku.java:97-103 | a cell is cleared exactly when its count was at most 1 |
| Generators.ThinnedStep | app/src/main/java/sudoku/GenerateSudoku.java:93-103 | the grid only loses symbols and, on a consistent start, is the start with the cleared cells emptied |
| Generators.DeleteRandomCells | app/src/main/java/sudoku/GenerateSudoku.java:73-106 | at most `nbCells` cells are cleared, stopping early only when every filled cell was tried; a cell stays cleared exactly when its count was at most 1; on a consistent grid the puzzle is the grid with exactly those cells emptied; with the backtracking solvers every cell tried is cleared |
| Generators.DeletePass | app/src/main/java/sudoku/GenerateSudoku.java:88-104 | one pass takes a position off the list and either clears its cell (one fewer to clear) or keeps it |
| Generators.DeleteStep | app/src/main/java/sudoku/GenerateSudoku.java:92-103 | the pass on one cell keeps the grid's shape, empties the cell when the count was at most 1, touches no other cell, and keeps consistency |
| Generators.NewEngine | app/src/main/java/sudoku/GenerateSudoku.java:52-57 | the solver the enum names, holding the grid and the grid hash function |
| Generators.SolveWith | app/src/main/java/sudoku/GenerateSudoku.java:59 | `solver.solve()`: the grid only gains symbols, stays consistent, and ends complete or unchanged; only the wave-function collapse can run out of fuel |
| Generators.Shuffle | app/src/main/java/sudoku/GenerateSudoku.java:62-64 | the exchange runs only when the grid says its blocks are random; every symbol stays put and only rule membership changes |
| Generators.GenerateSudoku.constructor | app/src/main/java/sudoku/GenerateSudoku.java:32-35 | the generator holds the grid and no solver |
| Generators.GenerateSudoku.GenerateSudoku | app/src/main/java/sudoku/GenerateSudoku.java:51-66 | the solver named is built on the grid; the solved grid extends the start and is consistent; the exchange keeps every symbol; and the puzzle left is the exchanged grid with at most `nbCells` cells emptied, still consistent |
| LegacyGrids.PrimeFactors | app/src/main/java/sudoku/Grid.java:69-92 | trial division folded to two factors with no shuffle: empty below 2, otherwise two positive factors whose product is the number, a prime giving the prime and 1 |
| LegacyGrids.BlockShapeExamples | app/src/main/java/sudoku/Grid.java:69-92 | 12 splits as 2·2·3 and folds to [3, 4]; 6 splits as 2·3 |
| LegacyGrids.OthersSpec | app/src/main/java/sudoku/Grid.java:30-37 | the values other than `i` number `n - 1` when `i` is among `1 .. n`, and they come in ascending order |
| LegacyGrids.OthersMembers | app/src/main/java/sudoku/Grid.java:30-37 | the list holds exactly the values of `1 .. n` other than `i` |
| LegacyGrids.RulesUpToSpec | app/src/main/java/sudoku/Grid.java:27-41 | the rule map has the keys "1" .. "n", each mapped to all the other values |
| LegacyGrids.AsWrittenIndexLeavesArray | app/src/main/java/sudoku/Grid.java:61 | as written, for size 6 (shape [2, 3]) cell (5, 5) gets block index 7, past the end of the six block constraints |
| LegacyGrids.BlockIndexInRange | app/src/main/java/sudoku/Grid.java:59-66 | the corrected index names one of the `bh * bw` blocks |
| LegacyGrids.SameBlockIndex | app/src/main/java/sudoku/Grid.java:59-66 | two cells share the corrected index exactly when they are in the same block row and block column |
| LegacyGrids.CellIdsShared | app/src/main/java/sudoku/Grid.java:59-66 | two cells share a block id exactly when they are in the same block, a line id exactly when on the same line, a column id exactly when in the same column; ids of different kinds never meet |
| LegacyGrids.OthersArray | app/src/main/java/sudoku/Grid.java:30-37 | the inner loop fills an array of the other values in ascending order |
| LegacyGrids.LegacyGrid.constructor | app/src/main/java/sudoku/Grid.java:13-25 | the grid is `size` by `size`, takes a block shape multiplying to the size, numbers `3 * size` constraints and gives every cell its block, line and column ids |
| LegacyGrids.LegacyGrid.InitRules | app/src/main/java/sudoku/Grid.java:27-41 | each value "1" .. "size" is mapped to the other values, ascending |
| LegacyGrids.LegacyGrid.InitConstraints | app/src/main/java/sudoku/Grid.java:43-67 | blocks are numbered first in row-major order, then lines and columns alternately; every cell gets the ids of its block (corrected index), line and column |
| LegacyGrids.LegacyGrid.NumberBlocks | app/src/main/java/sudoku/Grid.java:48-52 | the block constraints take consecutive ids in row-major order |
| LegacyGrids.LegacyGrid.NumberBlockRow | app/src/main/java/sudoku/Grid.java:49-51 | one block row takes the next `bw` ids; other entries are unchanged |
| LegacyGrids.LegacyGrid.NumberLines | app/src/main/java/sudoku/Grid.java:54-57 | line `i` and column `i` take the next two ids, in that order |
| LegacyGrids.LegacyGrid.FillCells | app/src/main/java/sudoku/Grid.java:59-66 | every cell gets the ids of its block, line and column |
| LegacyGrids.LegacyGrid.FillCellRow | app/src/main/java/sudoku/Grid.java:60-65 | the cells of line `i` get their ids; other lines are unchanged |
| LegacyRules.MergedContains | app/src/main/java/sudoku/Rule.java:51-59 | a merge has the keys of both rules, each key's set holds the sets of both, and holds nothing more |
| LegacyRules.MergedCommutes | app/src/main/java/sudoku/Rule.java:51-59 | the order of a merge does not matter |
| LegacyRules.MergedIdempotent | app/src/main/java/sudoku/Rule.java:51-59 | merging a rule with itself changes nothing |
| LegacyRules.MergedDisjointIsCopy | app/src/main/java/sudoku/Rule.java:45-59 | on rules with no value in common, merging is the same as copying every entry |
| LegacyRules.CopiedSoFarStep | app/src/main/java/sudoku/Rule.java:45-49 | copying one more entry of the other rule keeps the copy made so far faithful |
| LegacyRules.CopyOne | app/src/main/java/sudoku/Rule.java:45-49 | one step of the copy loop: one more entry copied, one fewer left |
| LegacyRules.CopyAll | app/src/main/java/sudoku/Rule.java:45-49 | copying every entry of a map into another yields the second overriding the first |
| LegacyRules.MergedSoFarStep | app/src/main/java/sudoku/Rule.java:51-59 | unioning one more set of the other rule keeps the merge made so far faithful |
| LegacyRules.MoveKey | app/src/main/java/sudoku/Rule.java:51-59 | moving a value from the values left to the values done keeps the two a partition and shrinks what is left |
| LegacyRules.MergeOne | app/src/main/java/sudoku/Rule.java:51-59 | one step of the merge loop: one more set unioned, one fewer left |
| LegacyRules.MergedSoFarStart | app/src/main/java/sudoku/Rule.java:51-59 | before the loop, the rule itself is the merge of none of the other's entries |
| LegacyRules.MergedSoFarDone | app/src/main/java/sudoku/Rule.java:51-59 | once every entry of the other rule is merged, the result is the merge of both |
| LegacyRules.PlacedSpec | app/src/main/java/sudoku/Rule.java:65-75 | placing a value drops exactly the values listed under it, keeps every other set untouched, never grows the rule, and drops the value itself when it lists itself |
| LegacyRules.Rule.FromMap | app/src/main/java/sudoku/Rule.java:11-13 | the rule takes the given map |
| LegacyRules.Rule.constructor | app/src/main/java/sudoku/Rule.java:15-24 | every listed value is a key mapped to the set of just itself, and there are no other keys |
| LegacyRules.Rule.Get | app/src/main/java/sudoku/Rule.java:26-31 | the set listed under a value, or nothing for an unknown value |
| LegacyRules.Rule.IsValid | app/src/main/java/sudoku/Rule.java:61-63 | a key is valid exactly when `get` finds a set for it, that is when it is one of the possible moves |
| LegacyRules.Rule.GetPossibleMove | app/src/main/java/sudoku/Rule.java:37-39 | the possible moves are exactly the keys of the rule |
| LegacyRules.Rule.Size | app/src/main/java/sudoku/Rule.java:84-86 | the size is the number of possible moves |
| LegacyRules.Rule.Add | app/src/main/java/sudoku/Rule.java:41-43 | the set under the key is set or replaced and nothing else changes |
| LegacyRules.Rule.AddRule | app/src/main/java/sudoku/Rule.java:45-49 | every entry of the other rule is copied, replacing the sets of shared values |
| LegacyRules.Rule.MergingRule | app/src/main/java/sudoku/Rule.java:51-59 | the rule becomes the merge of both rules: every key of either, with the union of its sets |
| LegacyRules.Rule.PlaceValue | app/src/main/java/sudoku/Rule.java:65-75 | reports success exactly when the value is known; an unknown value leaves the rule as it was; otherwise every value listed under it is removed |
| LegacyRules.Rule.RemoveRule | app/src/main/java/sudoku/Rule.java:77-82 | the value is removed, and an unknown value changes nothing |
| LegacyZones.Sudoku.constructor | app/src/main/java/sudoku/Sudoku.java:16-21 | the zone keeps its size and position and starts with no rules |
| LegacyZones.Sudoku.Square | app/src/main/java/sudoku/Sudoku.java:23-28 | a square zone at the given position, with no rules |
| LegacyZones.Sudoku.SquareOnDiagonal | app/src/main/java/sudoku/Sudoku.java:30-35 | a square zone placed on the diagonal, with no rules |
| LegacyZones.Sudoku.OnDiagonal | app/src/main/java/sudoku/Sudoku.java:37-42 | a zone of the given size placed on the diagonal, with no rules |
| LegacyZones.Sudoku.GetMinPosition | app/src/main/java/sudoku/Sudoku.java:56-58 | the zone's corner |
| LegacyZones.Sudoku.GetMaxPosition | app/src/main/java/sudoku/Sudoku.java:60-62 | the corner moved by the size |
| LegacyZones.Sudoku.IsInsideOfSudoku | app/src/main/java/sudoku/Sudoku.java:64-67 | a relative position is inside exactly when it lies in the rectangle `[0, size.x) × [0, size.y)` |
| LegacyZones.Sudoku.InsideIsRectangle | app/src/main/java/sudoku/Sudoku.java:56-67 | a position is inside exactly when it lies in the zone's rectangle, and once moved it lies between the min and the max position |
| LegacyZones.Sudoku.MovedInside | app/src/main/java/sudoku/Sudoku.java:72-79 | the positions moved to absolute ones exactly when every one of them is inside, otherwise nothing |
| LegacyZones.Sudoku.Add | app/src/main/java/sudoku/Sudoku.java:69-81 | as written: the rule is always appended, its moved positions only when all of them are inside, so a refused addition leaves one more rule than position sets |
| LegacyZones.Sudoku.AddFixed | app/src/main/java/sudoku/Sudoku.java:69-81 | the rule and its moved positions are appended together or not at all, so the two lists stay in step |
| LegacyZones.Sudoku.GetNumberRule | app/src/main/java/sudoku/Sudoku.java:83-85 | the number of rules appended |
| LegacyZones.Sudoku.GetRule | app/src/main/java/sudoku/Sudoku.java:87-89 | the rule at the index; nothing exactly when the index is out of range, where the source throws `IndexOutOfBoundsException` |
| LegacyZones.Sudoku.GetRulePositions | app/src/main/java/sudoku/Sudoku.java:91-93 | the position set at the index; nothing exactly when the index is out of range, where the source throws `IndexOutOfBoundsException` |
| LegacyZones.Sudoku.Remove | app/src/main/java/sudoku/Sudoku.java:95-99 | the rule's first occurrence leaves the rule list; the position set at the same index leaves its list too, so lists in step stay in step; throws exactly when the rule is absent (nothing changes) or has no position set at its index (the rule list has already lost it) |
| Grids.Grid.Insert | app/src/test/java/sudoku/GridTest.java:34-51 | the shape is kept; the cell takes the symbol exactly when the insert is legal and is left as it was otherwise (a position outside the grid stays empty); every other cell is untouched |
| Grids.Grid.Reset | app/src/test/java/sudoku/GridTest.java:54-62 | the shape is kept, the cell is cleared and every other cell is untouched |
| Grids.Grid.InsideGrid | app/src/main/java/solvers/wfc/WaveFunctionCollapse.java:236-238 | a position is inside the grid exactly when the grid has a cell there, empty or filled |
| Grids.Grid.PossiblePlays | app/src/test/java/sudoku/GridTest.java:92-115 | nothing for an absent or filled cell or one without rules; otherwise exactly the symbols each of the cell's rules still allows: in its alphabet and held by none of its other cells |
| Grids.Grid.Legal | app/src/test/java/sudoku/GridTest.java:34-51 | an insert is legal exactly when the cell is present and empty and every rule containing it still allows the symbol |
| Grids.Grid.IsComplete | app/src/test/java/sudoku/GridTest.java:65-89 | a grid is complete exactly when it has no empty cell |
| Grids.PlaysIffLegal | app/src/test/java/sudoku/GridTest.java:92-115 | a symbol is a possible play at a cell exactly when inserting it there is legal and the cell belongs to some rule |
| Grids.InsertKeepsConsistent | app/src/test/java/sudoku/GridTest.java:34-41 | a legal insert keeps every rule free of a symbol outside its alphabet and of a repeated symbol |
| Grids.ResetKeepsConsistent | app/src/test/java/sudoku/GridTest.java:54-62 | clearing a cell keeps every rule consistent |
| Grids.ShapeKeepsWellFormed | app/src/test/java/sudoku/GridTest.java:34-62 | a grid with the same shape as a well-formed one is well formed, so inserts and resets keep the grid well formed |
| Grids.InsertThenReset | app/src/test/java/sudoku/GridTest.java:54-62 | clearing the cell a legal insert filled gives the original grid back |
| Grids.ResetThenReinsert | app/src/test/java/sudoku/GridTest.java:34-62 | in a consistent grid a filled cell can be cleared and its symbol legally put back, which gives the grid back |
| Grids.InsertFillsOne | app/src/test/java/sudoku/GridTest.java:65-89 | a legal insert fills exactly that one empty cell |
| Grids.ResetEmptiesOne | app/src/test/java/sudoku/GridTest.java:54-62 | clearing a filled cell adds exactly that one empty cell |
| Grids.ExtendsFewerEmpty | app/src/test/java/sudoku/GridTest.java:65-89 | a grid keeping every symbol of another has no more empty cells than it |
| Grids.ExtendsTransitive | app/src/test/java/sudoku/GridTest.java:65-89 | keeping every symbol of another grid is transitive |
| Grids.TouchedByMembers | app/src/main/java/solvers/wfc/WaveFunctionCollapse.java:257-293 | a position is reached by the propagation exactly when it belongs to one of the listed rules whose alphabet holds the symbol |
| Grids.RelatedByMembers | app/src/main/java/solvers/wfc/WaveFunctionCollapse.java:257-293 | a position is related exactly when it belongs to one of the listed rules |
| Grids.TouchedBySameShape | app/src/main/java/solvers/wfc/WaveFunctionCollapse.java:257-293 | the positions reached depend only on the shape of the grid, not on its symbols |
| Grids.TouchedInRelated | app/src/main/java/solvers/wfc/WaveFunctionCollapse.java:257-293 | every position the propagation recomputes shares a rule with the changed cell |
| Grids.RelatedAreCells | app/src/main/java/solvers/wfc/WaveFunctionCollapse.java:257-293 | in a well-formed grid the related positions are present cells, and a cell with a rule is related to itself |
| Grids.AllowedOffRule | app/src/main/java/solvers/wfc/WaveFunctionCollapse.java:257-293 | a rule without the changed cell allows the same symbols after the change |
| Grids.AllowedOffAlphabet | app/src/main/java/solvers/wfc/WaveFunctionCollapse.java:257-293 | a rule whose alphabet lacks the changed symbol allows the same symbols after the change |
| Grids.PlaysKept | app/src/main/java/solvers/wfc/WaveFunctionCollapse.java:257-293 | the possible plays of every cell the propagation does not reach are unchanged, so recomputing only the reached cells keeps every entropy right |
| Grids.PlaysKeptOffRelated | app/src/main/java/solvers/wfc/WaveFunctionCollapse.java:257-293 | the possible plays of a cell that shares no rule with the changed cell are unchanged |
| Grids.InsertChanges | app/src/main/java/solvers/wfc/WaveFunctionCollapse.java:124-128 | a legal insert changes exactly one cell, from empty to the symbol |
| Grids.ResetChanges | app/src/main/java/solvers/wfc/WaveFunctionCollapse.java:88-111 | clearing a filled cell changes exactly that cell, from its symbol to empty |
| Grids.ResetCellTouched | app/src/main/java/solvers/wfc/WaveFunctionCollapse.java:88-111 | clearing a filled cell whose symbol lies in its rules' alphabets makes the propagation recompute that cell itself |

## Left out

- The solvers' `Grid` source is not part of this model. `Grids` is an abstract model of it, and the builder, `getNbOfCellNotNull`, colours and printing are not modelled.
- Wfc.WaveFunctionCollapse.Solve: the source loop may never end; the model takes a `fuel` bound, reports whether it finished, and proves partial correctness only.
- Wfc.WaveFunctionCollapse.GetNumberOfSolutions: the counting loop also takes a `fuel` bound, for the same reason.
- Wfc.WaveFunctionCollapse.GetNumberOfSolutions: Java's `Grid.hashCode` is a function of the grid's contents given to the solver's constructor, so the count is the number of distinct hash codes of the solutions reached. No other property of the hash is assumed.
- OptimizedBacktracks.BacktrackOptimized.Place and OptimizedBacktracks.BacktrackOptimized.RollBack: a cache entry left valid keeps the candidates computed under the history of the state it was computed in. After an insert or a roll-back the current state has another history, so the model only proves that such entries agree with the earlier state's history, and that the cache stays sound; it does not claim that they match the new state's `getPossiblePlays`.
- OptimizedBacktracks.BacktrackOptimized.BacktrackMinimumRemainingValues, OptimizedBacktracks.BacktrackOptimized.ValidateAndPropagate: for the same reason they promise a sound cache, not one coherent with the current state's history.
- OptimizedBacktracks.BacktrackOptimized.Solve: the source does not promise completeness, and none is proved. The proof covers soundness only: a filled grid extends the start along the stack, stays consistent, and otherwise the grid is left as it was.
- OptimizedBacktracks.BacktrackOptimized.Solve requires a cache that agrees with the grid. It also requires every alphabet to be smaller than `Integer.MAX_VALUE`, which every Java set is.
- The optimized solver's null dereference on an absent chosen cell is not modelled; the model only chooses present cells.
- The optimized solver's naked-pairs elimination is left out: it is deprecated and its only call site is commented out.
- Entropies.Entropy.Merge and Entropies.CellsEntropy.Merge adopt the other accumulator's set or list by value. The source shares the object, so a later change to one is seen by both; that aliasing is not modelled.
- Rules.Rule.OffsetRepositioning moves the rule's positions by value. The source moves the `Position` objects in place, so an alias held by the caller moves too; that is not modelled.
- Logging, timing, the attempts counter, `printEntropy` and every `toString` used only for printing are I/O and are left out.
- The zone overloads that take an `int` offset, and plain getters, are not modelled when they only return a field.
- `Math.random`, `Random` and `Collections.shuffle` become a nondeterministic choice of a member or of a permutation. Only membership is specified. HashSet iteration order becomes an arbitrary enumeration.
- Java `int` overflow is not modelled, except in the position hash code, where the 32-bit wrap-around is written out (`Positions.Wrap32`). Coordinates and counts are unbounded.
- The `Math.sqrt` loop bound of both `primeFactors` is written as the equivalent `i * i <= number`.
- Sudokus.Sudoku.Classic requires a size of at least 2. For size 1 `primeFactors` is empty, and the source fails reading the first factor.
- LegacyGrids.LegacyGrid.constructor requires a size of at least 2, for the same reason.
- LegacyGrids.LegacyGrid.InitConstraints requires `bh * bw == size`, which `primeFactors` guarantees. It uses the corrected block index; the written one is a finding below.
- LegacyGrids.LegacyGrid.FillCellRow computes the corrected block index, and LegacyGrids.LegacyGrid.FillCells and LegacyGrids.LegacyGrid.constructor, which reach it, use it too; the written index is the finding below.
- The legacy `Cell`, `Element` and `Constraint` holders are only data, and are represented by the ids they carry.
- The legacy grid passes its `HashMap<String, String[]>` of rules to `new Rule(rules)` (app/src/main/java/sudoku/Grid.java:50, 55, 56), but no constructor of the legacy `Rule` takes that type, so the legacy grid does not compile against the classes beside it. The model builds the map (`initRules`) and numbers the constraints, and does not build the constraints' `Rule` objects.
- Cells.Cell.WithRules copies the list of rule ids. The source keeps the caller's `ArrayList`, so later changes by the caller would show in the cell; that aliasing is not modelled.
- LegacyRules.Rule.FromMap copies the given map. The source keeps the caller's `HashMap`, so later changes by the caller would show; that aliasing is not modelled.
- LegacyRules.Rule.MergingRule and LegacyRules.Rule.AddRule build the new map from a snapshot and assign it at the end. The source changes the map entry by entry, and the final map is the same.
- LegacyRules.Rule.MergingRule and LegacyRules.Rule.AddRule copy sets by value. The source stores the other rule's set objects and grows shared sets in place, so the two rules can end up sharing them; that aliasing is not modelled.
- The generator's percentage and its `(int)` cast are not modelled. The number of cells to delete is an integer parameter, and the constructor's percentage is dropped.
- Generators.GenerateSudoku.GenerateSudoku requires a well-formed, consistent start grid, and alphabets smaller than `Integer.MAX_VALUE` for the optimized solver.
- Generators.SwitchRandomCase does not model the swap on an inconsistent grid.
- Generators.DeleteRandomCells stops deleting when a wave-function count does not finish within its fuel.
- The generator is modelled on grid values. The grid is reached through the solver object, as the source shares one grid object between them. The `getGrid` getter is omitted.

## Findings

| source | as written | input that shows it | evidently intended | confidence | as-written member | corrected member |
|---|---|---|---|---|---|---|
| app/src/main/java/sudoku/Grid.java:61 | the block index of cell `(i, j)` is `(i / bh) * bw + j / bw` | size 6, block shape `[2, 3]`, cell `(5, 5)`: index 7 of 6 block constraints | `(i / bh) * bh + j / bw`, which names one of the `bh * bw` blocks and gives two cells the same block exactly when they share one | not executed | LegacyGrids.AsWrittenIndexLeavesArray | LegacyGrids.BlockIndexInRange |
| app/src/main/java/solvers/wfc/WaveFunctionCollapse.java:222 | the counting loop goes on while the stack is not empty or the least score is positive | a grid that is already complete: nothing to roll back, no empty cell, and the least score stays `Integer.MAX_VALUE`, so the loop never ends | also stop when the stack is empty and no empty cell is left, which counts a complete grid as one solution | not executed | Wfc.WaveFunctionCollapse.GetNumberOfSolutions | Wfc.WaveFunctionCollapse.GetNumberOfSolutionsFixed |
| app/src/main/java/sudoku/Sudoku.java:70-77 | the rule is appended before its positions are checked, and an outside position only skips the position set | any rule with a position outside the zone: one more rule than position sets, and every later index pairs a rule with the wrong positions | append the rule together with its positions or not at all, as the "cancel the addition" message says | not executed | LegacyZones.Sudoku.Add | LegacyZones.Sudoku.AddFixed |
