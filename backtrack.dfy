/**
 * The plain backtracking solver (`solvers.backtrack.Backtrack`): a row-major scan that tries
 * every possible play of each empty cell, goes on to the next cell and clears the cell again
 * when the rest cannot be filled. It writes to the grid directly and leaves the shared stack
 * and history alone.
 */
module Backtracks {
  import opened Wrappers
  import opened Positions
  import opened Cells
  import opened Grids
  import opened Solvers

  /** Every present cell belongs to at least one rule, as in every grid the builders make. */
  predicate Ruled(g: Grid) {
    forall p | p in g.cells :: |g.cells[p].idRules| > 0
  }

  /** `h` completes `g` from row `row`, column `col`: a consistent complete grid that extends
      `g` and agrees with it on every cell before that point of the scan. */
  predicate CompletionOf(h: Grid, g: Grid, row: int, col: int) {
    Extends(h, g) && h.IsComplete() && h.Consistent() &&
    forall q | q in g.cells && Before(q, row, col) :: h.cells[q] == g.cells[q]
  }

  ghost predicate CompletableFrom(g: Grid, row: int, col: int) {
    exists h :: CompletionOf(h, g, row, col)
  }

  /** The cell after row `row`, column `col` in the scan of a grid `width` wide. */
  predicate NextCell(width: int, row: int, col: int, nextRow: int, nextCol: int) {
    nextRow == (if col + 1 >= width then row + 1 else row) &&
    nextCol == (if col + 1 >= width then 0 else col + 1)
  }

  /** Moving one cell on in the scan puts exactly the current cell behind it. */
  lemma BeforeNext(g: Grid, row: int, col: int, nextRow: int, nextCol: int, q: Position)
    requires g.WellFormed() && q in g.cells && NextCell(g.size.x, row, col, nextRow, nextCol)
    ensures Before(q, nextRow, nextCol) <==> Before(q, row, col) || q == Position(col, row)
  {
  }

  /** From the start of the scan, a completion is a solution. */
  lemma CompletionFromStart(g: Grid, h: Grid)
    requires g.WellFormed()
    ensures CompletionOf(h, g, 0, 0) <==> Solution(h, g)
  {
  }

  /** A solution holds at an empty cell with a rule one of the grid's possible plays there. */
  lemma SolutionSymbolIsPlay(g: Grid, h: Grid, p: Position)
    requires g.WellFormed() && Extends(h, g) && h.Consistent()
    requires g.IsEmpty(p) && |g.cells[p].idRules| > 0 && h.cells[p].symbol.Some?
    ensures h.cells[p].symbol.value in g.PossiblePlays(p)
  {
    var v := h.cells[p].symbol.value;
    assert h.SymbolAt(p) == Some(v);
    forall r | 0 <= r < |g.rules| && p in g.rules[r].positions
      ensures v in g.Alphabet(r) && forall q | q in g.rules[r].positions && q != p :: g.SymbolAt(q) != Some(v)
    {
      forall q | q in g.rules[r].positions && q != p
        ensures g.SymbolAt(q) != Some(v)
      {
        assert g.SymbolAt(q).Some? ==> h.SymbolAt(q) == g.SymbolAt(q);
      }
    }
    assert g.Legal(v, p);
    PlaysIffLegal(g, v, p);
  }

  /** Skipping an absent or filled cell keeps every completion. */
  lemma CompletionSkips(g: Grid, h: Grid, row: int, col: int, nextRow: int, nextCol: int)
    requires g.WellFormed() && NextCell(g.size.x, row, col, nextRow, nextCol)
    requires !g.IsEmpty(Position(col, row))
    requires CompletionOf(h, g, row, col)
    ensures CompletionOf(h, g, nextRow, nextCol)
  {
    var p := Position(col, row);
    forall q | q in g.cells && Before(q, nextRow, nextCol)
      ensures h.cells[q] == g.cells[q]
    {
      BeforeNext(g, row, col, nextRow, nextCol, q);
      if q == p {
        assert h.cells[q].symbol == g.cells[q].symbol;
      }
    }
  }

  /** A completion passing through an empty cell goes through one of its possible plays: it
      completes the grid with that play inserted from the next cell on. */
  lemma CompletionThrough(g: Grid, h: Grid, row: int, col: int, nextRow: int, nextCol: int)
    requires g.WellFormed() && NextCell(g.size.x, row, col, nextRow, nextCol)
    requires g.IsEmpty(Position(col, row)) && |g.cells[Position(col, row)].idRules| > 0
    requires CompletionOf(h, g, row, col)
    ensures h.cells[Position(col, row)].symbol.Some?
    ensures h.cells[Position(col, row)].symbol.value in g.PossiblePlays(Position(col, row))
    ensures CompletionOf(h, g.Insert(h.cells[Position(col, row)].symbol.value, Position(col, row)), nextRow, nextCol)
  {
    var p := Position(col, row);
    var v := h.cells[p].symbol.value;
    SolutionSymbolIsPlay(g, h, p);
    PlaysIffLegal(g, v, p);
    var k := g.Insert(v, p);
    forall q | q in k.cells && Before(q, nextRow, nextCol)
      ensures h.cells[q] == k.cells[q]
    {
      BeforeNext(g, row, col, nextRow, nextCol, q);
    }
  }

  /** When no possible play of the empty cell can be completed, the grid cannot either. */
  lemma NoCompletionThroughAny(g: Grid, row: int, col: int, nextRow: int, nextCol: int)
    requires g.WellFormed() && Ruled(g) && NextCell(g.size.x, row, col, nextRow, nextCol)
    requires g.IsEmpty(Position(col, row))
    requires forall v | v in g.PossiblePlays(Position(col, row)) :: !CompletableFrom(g.Insert(v, Position(col, row)), nextRow, nextCol)
    ensures !CompletableFrom(g, row, col)
  {
    if h :| CompletionOf(h, g, row, col) {
      CompletionThrough(g, h, row, col, nextRow, nextCol);
    }
  }

  class Backtrack {
    const core: Solver

    constructor (grid: Grid, hash: Fill -> int)
      ensures fresh(core)
      ensures core.grid == grid && core.hash == hash && core.lastInserts == [] && core.history == map[]
    {
      core := new Solver(grid, hash);
    }

    /** `solve`: runs the scan from the first cell. When the grid can be solved (and every
        cell has a rule, as always) it ends complete; otherwise it is left as it was. */
    method Solve()
      requires core.grid.WellFormed()
      modifies core
      ensures Extends(core.grid, old(core.grid)) && core.grid.WellFormed()
      ensures core.lastInserts == old(core.lastInserts) && core.history == old(core.history)
      ensures core.grid.IsComplete() || core.grid == old(core.grid)
      ensures old(core.grid).Consistent() ==> core.grid.Consistent()
      ensures Ruled(old(core.grid)) && (exists h :: Solution(h, old(core.grid))) ==> core.grid.IsComplete()
    {
      ghost var g := core.grid;
      var solved := Backtrack(0, 0);
      if !solved && Ruled(g) {
        forall h | Solution(h, g)
          ensures false
        {
          CompletionFromStart(g, h);
        }
      }
    }

    /** `getNumberOfSolutions`: not implemented by this solver, which answers -1. */
    method GetNumberOfSolutions() returns (count: int)
      ensures count == -1
    {
      return -1;
    }

    /** `backtrack(row, col)`: fills the empty cells from row `row`, column `col` on. On
        success every cell from there on holds a symbol; on failure the grid is as it was and,
        when every cell has a rule, no completion from that point exists. Cells before the
        point are never touched. */
    method Backtrack(row: int, col: int) returns (solved: bool)
      requires core.grid.WellFormed()
      modifies core
      decreases core.grid.size.y - row, core.grid.size.x - col, 2
      ensures Extends(core.grid, old(core.grid)) && core.grid.WellFormed()
      ensures core.lastInserts == old(core.lastInserts) && core.history == old(core.history)
      ensures forall q | q in old(core.grid).cells && Before(q, row, col) :: core.grid.cells[q] == old(core.grid).cells[q]
      ensures old(core.grid).Consistent() ==> core.grid.Consistent()
      ensures solved ==> forall q | q in core.grid.cells && !Before(q, row, col) :: core.grid.cells[q].symbol.Some?
      ensures !solved ==> core.grid == old(core.grid)
      ensures !solved && Ruled(old(core.grid)) ==> !CompletableFrom(old(core.grid), row, col)
    {
      var size := core.grid.size;
      if row >= size.y {
        return true;
      }
      var nextRow := if col + 1 >= size.x then row + 1 else row;
      var nextCol := if col + 1 >= size.x then 0 else col + 1;
      var currentPos := Position(col, row);
      ghost var g := core.grid;

      if currentPos !in core.grid.cells || core.grid.cells[currentPos].symbol.Some? {
        solved := Backtrack(nextRow, nextCol);
        SkipCarries(g, core.grid, row, col, nextRow, nextCol, solved);
        return;
      }

      solved := TryPlays(row, col, nextRow, nextCol);
    }

    /** The loop of `backtrack` over the possible plays of the empty current cell: inserts
        each in turn and goes on to the next cell, clearing the cell again when that fails. */
    method TryPlays(row: int, col: int, nextRow: int, nextCol: int) returns (solved: bool)
      requires core.grid.WellFormed() && NextCell(core.grid.size.x, row, col, nextRow, nextCol)
      requires row < core.grid.size.y && core.grid.IsEmpty(Position(col, row))
      modifies core
      decreases core.grid.size.y - row, core.grid.size.x - col, 1
      ensures Extends(core.grid, old(core.grid)) && core.grid.WellFormed()
      ensures core.lastInserts == old(core.lastInserts) && core.history == old(core.history)
      ensures forall q | q in old(core.grid).cells && Before(q, row, col) :: core.grid.cells[q] == old(core.grid).cells[q]
      ensures old(core.grid).Consistent() ==> core.grid.Consistent()
      ensures solved ==> forall q | q in core.grid.cells && !Before(q, row, col) :: core.grid.cells[q].symbol.Some?
      ensures !solved ==> core.grid == old(core.grid)
      ensures !solved && Ruled(old(core.grid)) ==> !CompletableFrom(old(core.grid), row, col)
    {
      var currentPos := Position(col, row);
      ghost var g := core.grid;
      var possibleValues := core.grid.PossiblePlays(currentPos);
      var remaining := possibleValues;
      while remaining != {}
        invariant core.grid == g && core.lastInserts == old(core.lastInserts) && core.history == old(core.history)
        invariant remaining <= possibleValues
        invariant Ruled(g) ==> forall v | v in possibleValues - remaining :: !CompletableFrom(g.Insert(v, currentPos), nextRow, nextCol)
        decreases |remaining|
      {
        var value :| value in remaining;
        remaining := remaining - {value};
        var found := TryValue(value, row, col, nextRow, nextCol);
        if found {
          return true;
        }
      }
      if Ruled(g) {
        NoCompletionThroughAny(g, row, col, nextRow, nextCol);
      }
      return false;
    }

    /** One turn of the loop of `backtrack`: inserts `value` in the empty current cell and
      goes on to the next cell; when that fails the cell is cleared and the grid is as it
      was. */
    method TryValue(value: Symbol, row: int, col: int, nextRow: int, nextCol: int) returns (found: bool)
      requires core.grid.WellFormed() && NextCell(core.grid.size.x, row, col, nextRow, nextCol)
      requires row < core.grid.size.y && value in core.grid.PossiblePlays(Position(col, row))
      modifies core
      decreases core.grid.size.y - row, core.grid.size.x - col, 0
      ensures core.lastInserts == old(core.lastInserts) && core.history == old(core.history)
      ensures found ==> Extends(core.grid, old(core.grid)) && core.grid.WellFormed()
      ensures found ==> forall q | q in old(core.grid).cells && Before(q, row, col) :: core.grid.cells[q] == old(core.grid).cells[q]
      ensures found ==> old(core.grid).Consistent() ==> core.grid.Consistent()
      ensures found ==> forall q | q in core.grid.cells && !Before(q, row, col) :: core.grid.cells[q].symbol.Some?
      ensures !found ==> core.grid == old(core.grid)
      ensures !found && Ruled(old(core.grid)) ==> !CompletableFrom(old(core.grid).Insert(value, Position(col, row)), nextRow, nextCol)
    {
      var currentPos := Position(col, row);
      ghost var g := core.grid;
      PlaysIffLegal(g, value, currentPos);
      core.grid := core.grid.Insert(value, currentPos);
      ghost var k := core.grid;
      ShapeKeepsWellFormed(g, k);
      found := Backtrack(nextRow, nextCol);
      if found {
        InsertFillsCell(g, k, core.grid, row, col, nextRow, nextCol, value);
        return;
      }
      core.grid := core.grid.Reset(currentPos);
      InsertThenReset(g, value, currentPos);
    }
  }

  /** What the recursive call after an absent or filled cell leaves carries over to the
      current cell: the same cells are untouched and filled, and no completion from the next
      cell means none from the current one. */
  lemma SkipCarries(g: Grid, f: Grid, row: int, col: int, nextRow: int, nextCol: int, solved: bool)
    requires g.WellFormed() && NextCell(g.size.x, row, col, nextRow, nextCol)
    requires !g.IsEmpty(Position(col, row)) && SameShape(g, f)
    requires forall q | q in g.cells && Before(q, nextRow, nextCol) :: f.cells[q] == g.cells[q]
    requires solved ==> forall q | q in f.cells && !Before(q, nextRow, nextCol) :: f.cells[q].symbol.Some?
    requires !solved && Ruled(g) ==> !CompletableFrom(g, nextRow, nextCol)
    ensures forall q | q in g.cells && Before(q, row, col) :: f.cells[q] == g.cells[q]
    ensures solved ==> forall q | q in f.cells && !Before(q, row, col) :: f.cells[q].symbol.Some?
    ensures !solved && Ruled(g) ==> !CompletableFrom(g, row, col)
  {
    var p := Position(col, row);
    forall q | q in g.cells
      ensures Before(q, nextRow, nextCol) <==> Before(q, row, col) || q == p
    {
      BeforeNext(g, row, col, nextRow, nextCol, q);
    }
    if !solved && Ruled(g) {
      forall h | CompletionOf(h, g, row, col)
        ensures false
      {
        CompletionSkips(g, h, row, col, nextRow, nextCol);
      }
    }
  }

  /** What a successful recursive call after a legal insert at the current cell leaves: the
      grid from the current cell on is filled, earlier cells are untouched, and consistency
      and extension carry over. */
  lemma InsertFillsCell(g: Grid, k: Grid, f: Grid, row: int, col: int, nextRow: int, nextCol: int, value: Symbol)
    requires g.WellFormed() && NextCell(g.size.x, row, col, nextRow, nextCol)
    requires g.Legal(value, Position(col, row)) && k == g.Insert(value, Position(col, row))
    requires Extends(f, k)
    requires forall q | q in k.cells && Before(q, nextRow, nextCol) :: f.cells[q] == k.cells[q]
    requires forall q | q in f.cells && !Before(q, nextRow, nextCol) :: f.cells[q].symbol.Some?
    requires g.Consistent() ==> k.Consistent() ==> f.Consistent()
    ensures Extends(f, g)
    ensures forall q | q in g.cells && Before(q, row, col) :: f.cells[q] == g.cells[q]
    ensures forall q | q in f.cells && !Before(q, row, col) :: f.cells[q].symbol.Some?
    ensures g.Consistent() ==> f.Consistent()
  {
    var p := Position(col, row);
    forall q | q in g.cells
      ensures Before(q, nextRow, nextCol) <==> Before(q, row, col) || q == p
    {
      BeforeNext(g, row, col, nextRow, nextCol, q);
    }
    assert k.cells[p].symbol == Some(value);
    if g.Consistent() {
      InsertKeepsConsistent(g, value, p);
    }
  }
}
