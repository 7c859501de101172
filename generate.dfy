/**
 * The puzzle generator (`sudoku.GenerateSudoku`): solve the grid with the chosen solver,
 * optionally exchange the rule lists of pairs of cells holding the same symbol, then clear
 * random filled cells as long as the solver does not report more than one solution.
 */
module Generators {
  import opened Wrappers
  import opened Lists
  import opened Positions
  import opened Cells
  import opened Grids
  import opened Solvers
  import Wfc
  import Backtracks
  import OptimizedBacktracks

  // ---------------------------------------------------------------------------------------
  // The two scans over the grid's rectangle, columns outermost.

  /** A present cell of the grid's rectangle holding a symbol: what `deleteRandomCells`
      collects. */
  predicate Filled(g: Grid, q: Position) {
    g.InBounds(q) && q in g.cells && g.cells[q].symbol.Some?
  }

  function FilledSet(g: Grid): set<Position> {
    set q | q in g.cells && Filled(g, q)
  }

  /** `q` is a cell of the grid's rectangle, other than `p`, holding the symbol `p` holds:
      what `findCaseWithSameSymbol(p)` collects. */
  predicate SameSymbol(g: Grid, p: Position, q: Position) {
    g.InBounds(q) && g.SymbolAt(q).Some? && g.SymbolAt(q) == g.SymbolAt(p) && q != p
  }

  lemma DistinctAppend<T>(s: seq<T>, v: T)
    requires Distinct(s) && v !in s
    ensures Distinct(s + [v])
  {
    forall i, j | 0 <= i < j < |s + [v]|
      ensures (s + [v])[i] != (s + [v])[j]
    {
      if j == |s| {
        assert (s + [v])[i] == s[i];
      }
    }
  }

  /** The inner loop of the collection in `deleteRandomCells`: the filled cells of column `x`,
      appended to the ones found so far. */
  method CollectFilledColumn(g: Grid, x: int, start: seq<Position>) returns (positions: seq<Position>)
    requires 0 <= x < g.size.x
    requires Distinct(start) && forall k | 0 <= k < |start| :: start[k].x < x
    ensures Distinct(positions) && forall k | 0 <= k < |positions| :: positions[k].x <= x
    ensures forall q :: q in positions <==> q in start || (q.x == x && Filled(g, q))
  {
    positions := start;
    var y := 0;
    while y < g.size.y
      invariant 0 <= y
      invariant Distinct(positions)
      invariant forall k | 0 <= k < |positions| :: positions[k].x < x || (positions[k].x == x && positions[k].y < y)
      invariant forall q :: q in positions <==> q in start || (q.x == x && q.y < y && Filled(g, q))
    {
      var q := Position(x, y);
      if q in g.cells && g.cells[q].symbol.Some? {
        DistinctAppend(positions, q);
        positions := positions + [q];
      }
      y := y + 1;
    }
  }

  /** The collection in `deleteRandomCells`: every filled cell of the grid's rectangle,
      once each. */
  method FilledPositions(g: Grid) returns (positions: seq<Position>)
    ensures Distinct(positions)
    ensures forall q :: q in positions <==> q in FilledSet(g)
  {
    positions := [];
    var x := 0;
    while x < g.size.x
      invariant 0 <= x
      invariant Distinct(positions)
      invariant forall k | 0 <= k < |positions| :: positions[k].x < x
      invariant forall q :: q in positions <==> q.x < x && Filled(g, q)
    {
      positions := CollectFilledColumn(g, x, positions);
      x := x + 1;
    }
  }

  /** The inner loop of `findCaseWithSameSymbol`: the cells of column `x` holding the symbol
      `p` holds, appended to the ones found so far. */
  method CollectSameSymbolColumn(g: Grid, p: Position, x: int, start: seq<Position>) returns (positions: seq<Position>)
    requires 0 <= x < g.size.x
    ensures forall q :: q in positions <==> q in start || (q.x == x && SameSymbol(g, p, q))
  {
    var symbol := g.SymbolAt(p);
    positions := start;
    var y := 0;
    while y < g.size.y
      invariant 0 <= y
      invariant forall q :: q in positions <==> q in start || (q.x == x && q.y < y && SameSymbol(g, p, q))
    {
      var q := Position(x, y);
      if g.SymbolAt(q).Some? && g.SymbolAt(q) == symbol && p != q {
        positions := positions + [q];
      }
      y := y + 1;
    }
  }

  /** `findCaseWithSameSymbol(p)`: some other cell holding the symbol `p` holds, and none
      (`null`) exactly when there is no such cell. An empty or absent `p` never finds one. */
  method FindCaseWithSameSymbol(g: Grid, p: Position) returns (found: Option<Position>)
    ensures found.None? <==> forall q :: !SameSymbol(g, p, q)
    ensures found.Some? ==> SameSymbol(g, p, found.value)
    ensures found.Some? ==> p in g.cells && g.cells[p].symbol.Some?
  {
    var positions: seq<Position> := [];
    var x := 0;
    while x < g.size.x
      invariant 0 <= x
      invariant forall q :: q in positions <==> q.x < x && SameSymbol(g, p, q)
    {
      positions := CollectSameSymbolColumn(g, p, x, positions);
      x := x + 1;
    }
    if |positions| == 0 {
      return None;
    }
    var randomIndex :| 0 <= randomIndex < |positions|;
    assert positions[randomIndex] in positions;
    return Some(positions[randomIndex]);
  }

  // ---------------------------------------------------------------------------------------
  // The exchange of two cells in `switchRandomCase`.

  /** Every rule listed in `ids` trades the position `from` for `to`. */
  function Traded(rules: seq<RuleData>, ids: seq<int>, from: Position, to: Position): seq<RuleData> {
    seq(|rules|, k requires 0 <= k < |rules| =>
      if k in ids then rules[k].(positions := rules[k].positions - {from} + {to}) else rules[k])
  }

  /** The loops of `switchRandomCase` over a cell's rule ids: each rule removes `from` and
      adds `to`. A rule listed twice trades once. */
  method TradeRulePositions(rules: seq<RuleData>, ids: seq<int>, from: Position, to: Position) returns (result: seq<RuleData>)
    requires forall i | 0 <= i < |ids| :: 0 <= ids[i] < |rules|
    ensures |result| == |rules|
    ensures forall k | 0 <= k < |rules| :: result[k].indexSymbols == rules[k].indexSymbols
    ensures forall k | 0 <= k < |rules| ::
      result[k].positions == if k in ids then rules[k].positions - {from} + {to} else rules[k].positions
    ensures result == Traded(rules, ids, from, to)
  {
    result := rules;
    var i := 0;
    while i < |ids|
      invariant 0 <= i <= |ids|
      invariant |result| == |rules|
      invariant forall k | 0 <= k < |rules| ::
        result[k] == if k in ids[..i] then rules[k].(positions := rules[k].positions - {from} + {to}) else rules[k]
    {
      var r := ids[i];
      assert ids[..i + 1] == ids[..i] + [r];
      result := result[r := result[r].(positions := result[r].positions - {from} + {to})];
      i := i + 1;
    }
    assert ids[..i] == ids;
  }

  /** What the exchange of `p` and `p2` leaves: the rules of `p` trade `p` for `p2`, then the
      rules of `p2` trade `p2` for `p`; each cell keeps its symbol and takes the other's list
      of rule ids. */
  function Swapped(g: Grid, p: Position, p2: Position): Grid
    requires p in g.cells && p2 in g.cells
  {
    var ids, ids2 := g.cells[p].idRules, g.cells[p2].idRules;
    g.(rules := Traded(Traded(g.rules, ids, p, p2), ids2, p2, p),
       cells := g.cells[p := CellValue(g.cells[p].symbol, ids2)][p2 := CellValue(g.cells[p2].symbol, ids)])
  }

  /** The exchange of `switchRandomCase` on two cells: the rule position sets are updated in
      turn, and two new cells replace the old ones. */
  method SwapCells(g: Grid, p: Position, p2: Position) returns (h: Grid)
    requires g.WellFormed() && p in g.cells && p2 in g.cells
    ensures h == Swapped(g, p, p2)
  {
    var symbol, symbol2 := g.cells[p].symbol, g.cells[p2].symbol;
    var idRules, idRules2 := g.cells[p].idRules, g.cells[p2].idRules;
    var rules := TradeRulePositions(g.rules, idRules, p, p2);
    rules := TradeRulePositions(rules, idRules2, p2, p);
    var newCell := new Cell.WithRules(idRules2);
    var newCell2 := new Cell.WithRules(idRules);
    if symbol.Some? {
      newCell.InsertSymbol(symbol.value);
    }
    if symbol2.Some? {
      newCell2.InsertSymbol(symbol2.value);
    }
    h := g.(rules := rules, cells := g.cells[p := newCell.Value()][p2 := newCell2.Value()]);
  }

  /** The cells `switchRandomCase` may exchange: two distinct cells holding the same symbol in
      a well-formed, consistent grid. */
  predicate Exchangeable(g: Grid, p: Position, p2: Position) {
    g.WellFormed() && g.Consistent() && p != p2 &&
    g.SymbolAt(p).Some? && g.SymbolAt(p) == g.SymbolAt(p2)
  }

  /** Two cells holding the same symbol share no rule of a consistent grid. */
  lemma ExchangeableShareNoRule(g: Grid, p: Position, p2: Position, r: int)
    requires Exchangeable(g, p, p2)
    ensures !(r in g.cells[p].idRules && r in g.cells[p2].idRules)
  {
  }

  /** After the exchange, the rules of `p` hold `p2` in place of `p`, the rules of `p2` hold
      `p` in place of `p2`, every other rule is as it was, and so are the alphabets. */
  lemma SwappedRules(g: Grid, p: Position, p2: Position)
    requires Exchangeable(g, p, p2)
    ensures var h, ids, ids2 := Swapped(g, p, p2), g.cells[p].idRules, g.cells[p2].idRules;
      |h.rules| == |g.rules| &&
      (forall r | 0 <= r < |g.rules| :: h.rules[r].indexSymbols == g.rules[r].indexSymbols) &&
      (forall r | 0 <= r < |g.rules| :: h.rules[r].positions ==
         if r in ids then g.rules[r].positions - {p} + {p2}
         else if r in ids2 then g.rules[r].positions - {p2} + {p}
         else g.rules[r].positions)
  {
    var ids, ids2 := g.cells[p].idRules, g.cells[p2].idRules;
    var t1 := Traded(g.rules, ids, p, p2);
    forall r | 0 <= r < |g.rules|
      ensures Swapped(g, p, p2).rules[r].positions ==
         if r in ids then g.rules[r].positions - {p} + {p2}
         else if r in ids2 then g.rules[r].positions - {p2} + {p}
         else g.rules[r].positions
    {
      ExchangeableShareNoRule(g, p, p2, r);
      assert t1[r] == if r in ids then g.rules[r].(positions := g.rules[r].positions - {p} + {p2}) else g.rules[r];
    }
  }

  /** Two grids that differ at most in which rules hold which cells: the same size, alphabets,
      present cells, number of rules, alphabet of each rule, and symbol in each cell. */
  predicate Reshuffled(g: Grid, h: Grid) {
    h.size == g.size && h.alphabets == g.alphabets && h.randomBlock == g.randomBlock &&
    h.cells.Keys == g.cells.Keys && |h.rules| == |g.rules| &&
    (forall r | 0 <= r < |g.rules| :: h.rules[r].indexSymbols == g.rules[r].indexSymbols) &&
    (forall q | q in g.cells :: h.cells[q].symbol == g.cells[q].symbol)
  }

  /** Reshuffled grids hold the same symbols and the same alphabets. */
  lemma ReshuffledAgree(g: Grid, h: Grid)
    requires Reshuffled(g, h)
    ensures h.Fill() == g.Fill()
    ensures forall q :: h.SymbolAt(q) == g.SymbolAt(q)
    ensures forall r :: h.Alphabet(r) == g.Alphabet(r)
  {
    assert h.Fill().Keys == g.Fill().Keys;
  }

  /** The cells after the exchange: `p` and `p2` keep their symbols and trade their rule ids;
      no other cell changes. */
  lemma SwappedCells(g: Grid, p: Position, p2: Position)
    requires Exchangeable(g, p, p2)
    ensures var h := Swapped(g, p, p2);
      Reshuffled(g, h) &&
      h.cells[p].idRules == g.cells[p2].idRules && h.cells[p2].idRules == g.cells[p].idRules &&
      forall q | q in g.cells && q != p && q != p2 :: h.cells[q] == g.cells[q]
  {
    SwappedRules(g, p, p2);
  }

  /** The exchange keeps the grid well formed: each cell still lists exactly the rules that
      contain it. */
  lemma SwappedWellFormed(g: Grid, p: Position, p2: Position)
    requires Exchangeable(g, p, p2)
    ensures Swapped(g, p, p2).WellFormed()
  {
    var h, ids, ids2 := Swapped(g, p, p2), g.cells[p].idRules, g.cells[p2].idRules;
    SwappedRules(g, p, p2);
    SwappedCells(g, p, p2);
    forall q, i | q in h.cells && 0 <= i < |h.cells[q].idRules|
      ensures 0 <= h.cells[q].idRules[i] < |h.rules| && q in h.rules[h.cells[q].idRules[i]].positions
    {
      var r := h.cells[q].idRules[i];
      if q == p {
        assert r == ids2[i] && r in ids2;
        ExchangeableShareNoRule(g, p, p2, r);
      } else if q == p2 {
        assert r == ids[i] && r in ids;
      } else {
        assert r == g.cells[q].idRules[i];
        ExchangeableShareNoRule(g, p, p2, r);
      }
    }
    forall r, q | 0 <= r < |h.rules| && q in h.rules[r].positions
      ensures q in h.cells && r in h.cells[q].idRules
    {
      ExchangeableShareNoRule(g, p, p2, r);
      if q != p && q != p2 {
        assert q in g.rules[r].positions;
        assert r in g.cells[q].idRules;
      }
    }
  }

  /** The symbols at the positions `ps` lie in the alphabet of rule `r` and are pairwise
      different. */
  predicate RuleConsistent(g: Grid, r: int, ps: set<Position>) {
    forall x | x in ps && g.SymbolAt(x).Some? ::
      g.SymbolAt(x).value in g.Alphabet(r) && forall y | y in ps && y != x :: g.SymbolAt(y) != g.SymbolAt(x)
  }

  /** A rule of a consistent grid stays consistent when one of its positions is traded for a
      position outside it that holds the same symbol. */
  lemma TradeKeepsRuleConsistent(g: Grid, r: int, a: Position, b: Position)
    requires 0 <= r < |g.rules| && RuleConsistent(g, r, g.rules[r].positions)
    requires a in g.rules[r].positions && b !in g.rules[r].positions && g.SymbolAt(a) == g.SymbolAt(b)
    ensures RuleConsistent(g, r, g.rules[r].positions - {a} + {b})
  {
    var ps, np := g.rules[r].positions, g.rules[r].positions - {a} + {b};
    forall x | x in np && g.SymbolAt(x).Some?
      ensures g.SymbolAt(x).value in g.Alphabet(r)
      ensures forall y | y in np && y != x :: g.SymbolAt(y) != g.SymbolAt(x)
    {
      var bx := if x == b then a else x;
      assert bx in ps && g.SymbolAt(bx) == g.SymbolAt(x);
      forall y | y in np && y != x
        ensures g.SymbolAt(y) != g.SymbolAt(x)
      {
        var backY := if y == b then a else y;
        assert backY in ps && g.SymbolAt(backY) == g.SymbolAt(y) && backY != bx;
      }
    }
  }

  /** The exchange keeps the grid consistent: a rule of `p` now holds `p2`, which holds the
      same symbol, in place of `p`, and the other way round. */
  lemma SwappedConsistent(g: Grid, p: Position, p2: Position)
    requires Exchangeable(g, p, p2)
    ensures Swapped(g, p, p2).Consistent()
  {
    var h, ids, ids2 := Swapped(g, p, p2), g.cells[p].idRules, g.cells[p2].idRules;
    SwappedRules(g, p, p2);
    SwappedCells(g, p, p2);
    ReshuffledAgree(g, h);
    forall r | 0 <= r < |h.rules|
      ensures RuleConsistent(h, r, h.rules[r].positions)
    {
      ExchangeableShareNoRule(g, p, p2, r);
      assert RuleConsistent(g, r, g.rules[r].positions);
      if r in ids {
        TradeKeepsRuleConsistent(g, r, p, p2);
      } else if r in ids2 {
        TradeKeepsRuleConsistent(g, r, p2, p);
      }
    }
  }


  /** The inner loop of `switchRandomCase` over column `i`: each cell not yet visited is
      exchanged with some other cell holding its symbol that was not visited either, and then
      counts as visited. */
  method SwitchColumn(g: Grid, i: int, switched: seq<Position>) returns (h: Grid, visited: seq<Position>)
    requires g.WellFormed() && g.Consistent()
    ensures h.WellFormed() && h.Consistent() && Reshuffled(g, h)
    ensures forall q :: q in visited <==> q in switched || (q.x == i && 0 <= q.y < g.size.y)
  {
    h, visited := g, switched;
    var j := 0;
    while j < g.size.y
      invariant 0 <= j <= if g.size.y >= 0 then g.size.y else 0
      invariant h.WellFormed() && h.Consistent() && Reshuffled(g, h)
      invariant forall q :: q in visited <==> q in switched || (q.x == i && 0 <= q.y < j)
    {
      var position := Position(i, j);
      if position in visited {
        j := j + 1;
        continue;
      }
      var position2 := FindCaseWithSameSymbol(h, position);
      if position2.Some? && position2.value !in visited {
        if position in h.cells && position2.value in h.cells {
          SwappedWellFormed(h, position, position2.value);
          SwappedConsistent(h, position, position2.value);
          SwappedCells(h, position, position2.value);
          h := SwapCells(h, position, position2.value);
        }
      }
      visited := visited + [position];
      j := j + 1;
    }
  }

  /** `switchRandomCase`: pairs of cells holding the same symbol trade their rule ids and
      their places in the rules. Every cell keeps its symbol, and the grid stays well formed
      and consistent. */
  method SwitchRandomCase(g: Grid) returns (h: Grid)
    requires g.WellFormed() && g.Consistent()
    ensures h.WellFormed() && h.Consistent()
    ensures Reshuffled(g, h) && h.Fill() == g.Fill()
  {
    var switchedPositions: seq<Position> := [];
    h := g;
    var i := 0;
    while i < g.size.x
      invariant 0 <= i <= if g.size.x >= 0 then g.size.x else 0
      invariant h.WellFormed() && h.Consistent() && Reshuffled(g, h)
      invariant forall q :: q in switchedPositions <==> 0 <= q.x < i && 0 <= q.y < g.size.y
    {
      h, switchedPositions := SwitchColumn(h, i, switchedPositions);
      i := i + 1;
    }
    ReshuffledAgree(g, h);
  }

  // ---------------------------------------------------------------------------------------
  // The solver `generateSudoku` builds, and the removal of cells.

  datatype SolverType = WFC | BACKTRACK | BACKTRACK_OPTIMIZED

  /** The solver object, by its kind. Each one owns a `Solver` holding the grid. */
  datatype Engine =
    | UseWfc(wfc: Wfc.WaveFunctionCollapse)
    | UseBacktrack(backtrack: Backtracks.Backtrack)
    | UseOptimized(optimized: OptimizedBacktracks.BacktrackOptimized)
  {
    /** The solver bookkeeping, whose `grid` is the generator's grid. */
    function Core(): Solver {
      match this
      case UseWfc(w) => w.core
      case UseBacktrack(b) => b.core
      case UseOptimized(o) => o.core
    }

    function Kind(): SolverType {
      match this
      case UseWfc(_) => WFC
      case UseBacktrack(_) => BACKTRACK
      case UseOptimized(_) => BACKTRACK_OPTIMIZED
    }

    /** The objects the solver may change. */
    ghost function Repr(): set<object> {
      match this
      case UseWfc(w) => {w, w.core, w.entropy}
      case UseBacktrack(b) => {b, b.core}
      case UseOptimized(o) => {o, o.core}
    }

    /** What counting solutions needs: a well-formed grid and, for the wave-function
        collapse, an entropy matrix of the grid's size. */
    ghost predicate Ready()
      reads Repr()
    {
      Core().grid.WellFormed() && (UseWfc? ==> wfc.Sized())
    }
  }

  /** `solver.getNumberOfSolutions()`: the two backtracking solvers answer -1 and 0 without
      touching the grid; the wave-function collapse counts the distinct solutions it reaches
      and, when it finishes, leaves the grid as it found it. */
  method NumberOfSolutions(e: Engine, fuel: nat) returns (count: int, finished: bool, ghost solutions: seq<Grid>)
    requires e.Ready()
    modifies e.Repr()
    ensures e.Ready()
    ensures Extends(e.Core().grid, old(e.Core().grid))
    ensures finished ==> e.Core().grid == old(e.Core().grid)
    ensures !e.UseWfc? ==> finished
    ensures e.UseBacktrack? ==> count == -1
    ensures e.UseOptimized? ==> count == 0
    ensures e.UseWfc? ==> count == |Wfc.Hashes(solutions, e.Core().hash)| &&
                          Wfc.Recorded(old(e.Core().grid), solutions, Wfc.Hashes(solutions, e.Core().hash), e.Core().hash)
  {
    solutions := [];
    match e
    case UseWfc(w) =>
      count, finished, solutions := w.GetNumberOfSolutions(fuel);
    case UseBacktrack(b) =>
      count := b.GetNumberOfSolutions();
      finished := true;
    case UseOptimized(o) =>
      count := o.GetNumberOfSolutions();
      finished := true;
  }

  /** The grid with the cells `cleared` emptied. */
  function ClearAll(g: Grid, cleared: set<Position>): Grid {
    g.(cells := map q | q in g.cells :: if q in cleared then g.cells[q].(symbol := None) else g.cells[q])
  }

  /** Clearing one more cell is resetting it. */
  lemma ClearOneMore(g: Grid, cleared: set<Position>, p: Position)
    requires p in g.cells
    ensures ClearAll(g, cleared + {p}) == ClearAll(g, cleared).Reset(p)
  {
    var a, b := ClearAll(g, cleared + {p}), ClearAll(g, cleared).Reset(p);
    assert a.cells.Keys == b.cells.Keys;
    assert forall q | q in a.cells :: a.cells[q] == b.cells[q];
  }

  /** Removing an element of a list without repetitions removes exactly that value. */
  lemma RemoveAtDistinct<T>(s: seq<T>, i: nat)
    requires Distinct(s) && i < |s|
    ensures Distinct(RemoveAt(s, i))
    ensures forall v :: v in RemoveAt(s, i) <==> v in s && v != s[i]
  {
    var r := RemoveAt(s, i);
    assert forall k | 0 <= k < |r| :: r[k] == if k < i then s[k] else s[k + 1];
    forall v | v in s && v != s[i]
      ensures v in r
    {
      var k :| 0 <= k < |s| && s[k] == v;
      if k < i {
        assert r[k] == v;
      } else {
        assert r[k - 1] == v;
      }
    }
  }

  /** One pass of the loop of `deleteRandomCells` on a filled cell: the cell is cleared and
      the solutions counted; when they are more than one the symbol goes back in. */
  method TryDelete(e: Engine, position: Position, fuel: nat) returns (count: int, done: bool)
    requires e.Ready()
    requires position in e.Core().grid.cells && e.Core().grid.cells[position].symbol.Some?
    modifies e.Repr()
    ensures e.Ready()
    ensures SameShape(old(e.Core().grid), e.Core().grid)
    ensures !e.UseWfc? ==> done
    ensures e.UseBacktrack? ==> count == -1
    ensures e.UseOptimized? ==> count == 0
    ensures done && count <= 1 ==> e.Core().grid == old(e.Core().grid).Reset(position)
    ensures done && count > 1 ==>
      e.Core().grid == old(e.Core().grid).Reset(position).Insert(old(e.Core().grid).cells[position].symbol.value, position)
  {
    var grid := e.Core().grid;
    var symbol := grid.cells[position].symbol.value;
    e.Core().grid := grid.Reset(position);
    ShapeKeepsWellFormed(grid, grid.Reset(position));
    ghost var solutions;
    count, done, solutions := NumberOfSolutions(e, fuel);
    if done && count > 1 {
      ShapeKeepsWellFormed(grid, grid.Reset(position).Insert(symbol, position));
      e.Core().grid := e.Core().grid.Insert(symbol, position);
    }
  }

  /** What the loop of `deleteRandomCells` keeps, from the grid `g0` it started on to the
      grid `g` now: the positions left are the filled cells not yet tried, the cells cleared
      were tried and had a count of at most 1, the other tried cells had a larger count, the
      grid only lost symbols, and on a consistent start it is `g0` with the cleared cells
      emptied. */
  ghost predicate Progress(g0: Grid, g: Grid, positions: seq<Position>, tried: set<Position>, cleared: set<Position>,
                           counts: map<Position, int>, consistent: bool, backtracking: bool) {
    Untried(g0, positions, tried) && Tally(tried, cleared, counts, backtracking) && Thinned(g0, g, tried, cleared, consistent)
  }

  /** The list holds, once each, the filled cells not yet tried. */
  ghost predicate Untried(g0: Grid, positions: seq<Position>, tried: set<Position>) {
    && Distinct(positions)
    && (forall q :: q in positions <==> q in FilledSet(g0) && q !in tried)
    && tried <= FilledSet(g0)
  }

  /** Every tried cell has its count, and was cleared exactly when the count was at most 1;
      for the backtracking solvers every tried cell was cleared. */
  ghost predicate Tally(tried: set<Position>, cleared: set<Position>, counts: map<Position, int>, backtracking: bool) {
    && cleared <= tried
    && counts.Keys == tried && (forall q | q in tried :: q in cleared <==> counts[q] <= 1)
    && (backtracking ==> cleared == tried)
  }

  /** The grid only lost symbols: the cleared cells are empty, the untried ones as they were,
      and on a consistent start nothing else changed. */
  ghost predicate Thinned(g0: Grid, g: Grid, tried: set<Position>, cleared: set<Position>, consistent: bool) {
    && SameShape(g0, g) && Extends(g0, g)
    && (forall q | q in cleared :: g.IsEmpty(q))
    && (forall q | q in g0.cells && q !in tried :: g.cells[q] == g0.cells[q])
    && (consistent ==> g == ClearAll(g0, cleared) && g.Consistent())
  }

  lemma ProgressStart(g0: Grid, positions: seq<Position>, consistent: bool, backtracking: bool)
    requires Distinct(positions) && forall q :: q in positions <==> q in FilledSet(g0)
    requires consistent ==> g0.Consistent()
    ensures Progress(g0, g0, positions, {}, {}, map[], consistent, backtracking)
  {
    assert ClearAll(g0, {}).cells == g0.cells;
  }

  /** A position still in the list is a filled cell the loop has not touched. */
  lemma ProgressNext(g0: Grid, g: Grid, positions: seq<Position>, tried: set<Position>, cleared: set<Position>,
                     counts: map<Position, int>, consistent: bool, backtracking: bool, id: int)
    requires Progress(g0, g, positions, tried, cleared, counts, consistent, backtracking) && 0 <= id < |positions|
    ensures var p := positions[id];
      p in g0.cells && g0.cells[p].symbol.Some? && g.cells[p] == g0.cells[p] && p !in tried && p !in cleared
  {
    assert positions[id] in positions;
  }

  /** One pass keeps `Progress`, with the position moved from the list to the tried cells. */
  lemma ProgressStep(g0: Grid, h: Grid, k: Grid, positions: seq<Position>, tried: set<Position>, cleared: set<Position>,
                     counts: map<Position, int>, consistent: bool, backtracking: bool, id: int, count: int)
    requires Progress(g0, h, positions, tried, cleared, counts, consistent, backtracking)
    requires h.WellFormed() && 0 <= id < |positions|
    requires backtracking ==> count <= 1
    requires count <= 1 ==> k == h.Reset(positions[id])
    requires count > 1 ==>
      positions[id] in g0.cells && g0.cells[positions[id]].symbol.Some? &&
      k == h.Reset(positions[id]).Insert(g0.cells[positions[id]].symbol.value, positions[id])
    ensures var p := positions[id];
      Progress(g0, k, RemoveAt(positions, id), tried + {p}, if count <= 1 then cleared + {p} else cleared,
               counts[p := count], consistent, backtracking)
  {
    var p := positions[id];
    ProgressNext(g0, h, positions, tried, cleared, counts, consistent, backtracking, id);
    UntriedStep(g0, positions, tried, id);
    TallyStep(tried, cleared, counts, backtracking, p, count);
    DeleteStep(g0, h, k, p, count, cleared, consistent);
    ThinnedStep(g0, h, k, tried, cleared, consistent, p, count);
  }

  lemma UntriedStep(g0: Grid, positions: seq<Position>, tried: set<Position>, id: int)
    requires Untried(g0, positions, tried) && 0 <= id < |positions|
    ensures Untried(g0, RemoveAt(positions, id), tried + {positions[id]})
  {
    RemoveAtDistinct(positions, id);
    assert positions[id] in positions;
  }

  /** With the list empty, every filled cell was tried. */
  lemma UntriedExhausted(g0: Grid, positions: seq<Position>, tried: set<Position>)
    requires Untried(g0, positions, tried) && |positions| == 0
    ensures tried == FilledSet(g0)
  {
  }

  lemma TallyStep(tried: set<Position>, cleared: set<Position>, counts: map<Position, int>, backtracking: bool, p: Position, count: int)
    requires Tally(tried, cleared, counts, backtracking) && p !in tried
    requires backtracking ==> count <= 1
    ensures Tally(tried + {p}, if count <= 1 then cleared + {p} else cleared, counts[p := count], backtracking)
  {
  }

  lemma ThinnedStep(g0: Grid, h: Grid, k: Grid, tried: set<Position>, cleared: set<Position>, consistent: bool, p: Position, count: int)
    requires Thinned(g0, h, tried, cleared, consistent) && p !in tried && p !in cleared
    requires SameShape(g0, k) && Extends(g0, k)
    requires count <= 1 ==> k.IsEmpty(p)
    requires forall q | q in h.cells && q != p :: k.cells[q] == h.cells[q]
    requires consistent ==> k == ClearAll(g0, if count <= 1 then cleared + {p} else cleared) && k.Consistent()
    ensures Thinned(g0, k, tried + {p}, if count <= 1 then cleared + {p} else cleared, consistent)
  {
  }

  /** `deleteRandomCells(nbCells)`: tries the filled cells one at a time, in random order,
      each at most once. A cell stays cleared exactly when the count of solutions that
      followed its clearing was at most 1, and then one fewer cell is left to clear. The
      loop stops once `nbCells` cells are cleared or every filled cell was tried (at once when
      there is none). The puzzle left is the grid with some symbols removed; when the grid
      was consistent it is the grid with exactly the cleared cells emptied. The backtracking
      solvers never report more than one solution, so with them every cell tried is cleared.
      A count of the wave-function collapse that runs out of fuel ends the loop
      (`finished` is false). */
  method DeleteRandomCells(e: Engine, nbCells: int, fuel: nat)
      returns (finished: bool, ghost cleared: set<Position>, ghost tried: set<Position>, ghost counts: map<Position, int>,
               ghost left: seq<Position>)
    requires e.Ready()
    modifies e.Repr()
    ensures e.Ready()
    ensures SameShape(old(e.Core().grid), e.Core().grid)
    ensures !e.UseWfc? ==> finished
    ensures finished ==> |cleared| <= if nbCells > 0 then nbCells else 0
    ensures finished ==> |cleared| == (if nbCells > 0 then nbCells else 0) || tried == FilledSet(old(e.Core().grid))
    ensures finished ==>
      Progress(old(e.Core().grid), e.Core().grid, left, tried, cleared, counts, old(e.Core().grid).Consistent(), !e.UseWfc?)
  {
    var g0 := e.Core().grid;
    ghost var consistent := g0.Consistent();
    finished, cleared, tried, counts := true, {}, {}, map[];
    var positions := FilledPositions(g0);
    left := positions;
    ProgressStart(g0, positions, consistent, !e.UseWfc?);
    if |positions| == 0 {
      UntriedExhausted(g0, positions, tried);
      return;
    }
    var n := nbCells;
    while n > 0 && |positions| > 0
      invariant e.Ready() && SameShape(g0, e.Core().grid)
      invariant Progress(g0, e.Core().grid, positions, tried, cleared, counts, consistent, !e.UseWfc?)
      invariant |cleared| + n == nbCells && (n >= 0 || cleared == {})
      decreases |positions|
    {
      var done;
      positions, n, done, tried, cleared, counts := DeletePass(e, g0, positions, n, fuel, tried, cleared, counts, consistent);
      if !done {
        return false, cleared, tried, counts, positions;
      }
    }
    left := positions;
    if |positions| == 0 {
      UntriedExhausted(g0, positions, tried);
    }
  }

  /** One pass of the loop of `deleteRandomCells`: takes a random position off the list and
      tries to clear its cell. */
  method DeletePass(e: Engine, g0: Grid, positions: seq<Position>, n: int, fuel: nat,
                    ghost tried: set<Position>, ghost cleared: set<Position>, ghost counts: map<Position, int>, ghost consistent: bool)
      returns (positions': seq<Position>, n': int, done: bool,
               ghost tried': set<Position>, ghost cleared': set<Position>, ghost counts': map<Position, int>)
    requires e.Ready() && |positions| > 0
    requires Progress(g0, e.Core().grid, positions, tried, cleared, counts, consistent, !e.UseWfc?)
    modifies e.Repr()
    ensures e.Ready() && SameShape(g0, e.Core().grid)
    ensures !e.UseWfc? ==> done
    ensures done ==> Progress(g0, e.Core().grid, positions', tried', cleared', counts', consistent, !e.UseWfc?)
    ensures done ==> |positions'| < |positions| && |cleared'| + n' == |cleared| + n && n - 1 <= n' <= n
  {
    var id :| 0 <= id < |positions|;
    var position := positions[id];
    var grid := e.Core().grid;
    ProgressNext(g0, grid, positions, tried, cleared, counts, consistent, !e.UseWfc?, id);
    n', done, tried', cleared', counts' := n, true, tried, cleared, counts;
    if position in grid.cells && grid.cells[position].symbol.Some? {
      var count;
      count, done := TryDelete(e, position, fuel);
      if !done {
        return positions, n, false, tried, cleared, counts;
      }
      ProgressStep(g0, grid, e.Core().grid, positions, tried, cleared, counts, consistent, !e.UseWfc?, id, count);
      if count <= 1 {
        n' := n - 1;
        cleared' := cleared + {position};
      }
      counts' := counts[position := count];
    }
    tried' := tried + {position};
    positions' := RemoveAt(positions, id);
  }

  /** What one pass of `deleteRandomCells` keeps, on the grid before (`h`) and after (`k`)
      the pass on `p`. */
  lemma DeleteStep(g0: Grid, h: Grid, k: Grid, p: Position, count: int, cleared: set<Position>, consistent: bool)
    requires h.WellFormed() && SameShape(g0, h) && Extends(g0, h)
    requires p in g0.cells && p !in cleared && h.cells[p] == g0.cells[p] && g0.cells[p].symbol.Some?
    requires count <= 1 ==> k == h.Reset(p)
    requires count > 1 ==> k == h.Reset(p).Insert(g0.cells[p].symbol.value, p)
    requires consistent ==> h == ClearAll(g0, cleared) && h.Consistent()
    ensures SameShape(g0, k) && Extends(g0, k)
    ensures count <= 1 ==> k.IsEmpty(p)
    ensures forall q | q in h.cells && q != p :: k.cells[q] == h.cells[q]
    ensures consistent ==> k == ClearAll(g0, if count <= 1 then cleared + {p} else cleared) && k.Consistent()
  {
    var s := g0.cells[p].symbol.value;
    if consistent {
      ResetKeepsConsistent(h, p);
      if count <= 1 {
        ClearOneMore(g0, cleared, p);
      } else {
        ResetThenReinsert(h, p);
      }
    }
  }

  /** The solver the enum names, built on `grid`: its grid is `grid`, a wave-function
      collapse has its entropy matrix, and the optimized solver starts with an empty cache. */
  method NewEngine(solverType: SolverType, grid: Grid, hash: Fill -> int) returns (e: Engine)
    requires grid.WellFormed()
    ensures e.Kind() == solverType && fresh(e.Repr())
    ensures e.Core().grid == grid && e.Core().hash == hash && e.Ready()
    ensures e.UseOptimized? ==> e.optimized.Sound()
  {
    match solverType
    case WFC =>
      var w := new Wfc.WaveFunctionCollapse(grid, hash);
      e := UseWfc(w);
    case BACKTRACK =>
      var b := new Backtracks.Backtrack(grid, hash);
      e := UseBacktrack(b);
    case BACKTRACK_OPTIMIZED =>
      var o := new OptimizedBacktracks.BacktrackOptimized(grid, hash);
      e := UseOptimized(o);
  }

  /** `solver.solve()`: every solver only fills empty cells, keeps a consistent grid
      consistent and ends with a complete grid or the one it started from; only the
      wave-function collapse can run out of fuel. */
  method SolveWith(e: Engine, fuel: nat) returns (finished: bool)
    requires e.Ready()
    requires e.UseOptimized? ==> e.optimized.Sound() && OptimizedBacktracks.SmallAlphabets(e.Core().grid)
    modifies e.Repr()
    ensures e.Ready() && Extends(e.Core().grid, old(e.Core().grid))
    ensures old(e.Core().grid).Consistent() ==> e.Core().grid.Consistent()
    ensures !e.UseWfc? ==> finished
    ensures finished ==> e.Core().grid.IsComplete() || e.Core().grid == old(e.Core().grid)
  {
    finished := true;
    match e
    case UseWfc(w) =>
      finished := w.Solve(fuel);
    case UseBacktrack(b) =>
      b.Solve();
    case UseOptimized(o) =>
      o.Solve();
      FilledAlongExtends(old(o.core.grid), o.core.grid, o.core.lastInserts);
  }

  /** The solved grid, with same-symbol cells exchanged when it has random blocks. */
  method Shuffle(e: Engine) returns (ghost switched: Grid)
    requires e.Ready() && e.Core().grid.Consistent()
    modifies e.Core()
    ensures e.Ready() && switched == e.Core().grid && switched.Consistent()
    ensures Reshuffled(old(e.Core().grid), switched)
    ensures !old(e.Core().grid).randomBlock ==> switched == old(e.Core().grid)
  {
    var current := e.Core().grid;
    if current.randomBlock {
      var h := SwitchRandomCase(current);
      e.Core().grid := h;
    }
    switched := e.Core().grid;
  }

  // ---------------------------------------------------------------------------------------

  class GenerateSudoku {
    /** The grid; once `generateSudoku` has built a solver, it is the solver's grid. */
    var grid: Grid
    /** The solver `generateSudoku` built last, if any. */
    var solver: Option<Engine>

    /** `GenerateSudoku(grid, percentage)`; the percentage becomes the number of cells to
        clear, given to `generateSudoku`. */
    constructor (grid: Grid)
      ensures this.grid == grid && solver == None
    {
      this.grid := grid;
      solver := None;
    }

    /** `generateSudoku(solverType)`: builds the solver the enum names on the grid and solves
        it; on a grid with random blocks exchanges same-symbol cells; then clears up to
        `nbCells` cells, each only while the solver reports at most one solution. `solved` is
        the grid the solver left, `switched` the grid after the exchanges and `cleared` the
        cells the removal emptied. The wave-function collapse takes `fuel` for each of its
        loops; `finished` is false when one of them ran out. */
    method GenerateSudoku(solverType: SolverType, nbCells: int, fuel: nat, hash: Fill -> int)
        returns (finished: bool, ghost solved: Grid, ghost switched: Grid, ghost cleared: set<Position>)
      requires grid.WellFormed() && grid.Consistent()
      requires solverType == BACKTRACK_OPTIMIZED ==> OptimizedBacktracks.SmallAlphabets(grid)
      modifies this
      ensures solver.Some? && solver.value.Kind() == solverType && fresh(solver.value.Repr())
      ensures solver.value.Core().grid == grid
      ensures solverType != WFC ==> finished
      ensures Extends(solved, old(grid)) && solved.WellFormed() && solved.Consistent()
      ensures finished ==> solved.IsComplete() || solved == old(grid)
      ensures Reshuffled(solved, switched) && switched.WellFormed() && switched.Consistent()
      ensures !solved.randomBlock ==> switched == solved
      ensures finished ==> Extends(switched, grid) && grid == ClearAll(switched, cleared)
      ensures finished ==> grid.WellFormed() && grid.Consistent()
      ensures finished ==> cleared <= FilledSet(switched) && |cleared| <= if nbCells > 0 then nbCells else 0
    {
      var e := NewEngine(solverType, grid, hash);
      solver := Some(e);
      finished := SolveWith(e, fuel);
      solved, switched, cleared := e.Core().grid, e.Core().grid, {};
      if !finished {
        grid := e.Core().grid;
        return;
      }
      switched := Shuffle(e);
      ghost var tried, counts, left;
      finished, cleared, tried, counts, left := DeleteRandomCells(e, nbCells, fuel);
      grid := e.Core().grid;
    }
  }
}
