/**
 * The wave function collapse solver (`solvers.wfc.WaveFunctionCollapse`): an entropy matrix
 * beside the shared solver bookkeeping. The entropy of an empty cell is its number of possible
 * plays; at each step the solver fills a cell of least score (entropy less the number of
 * symbols already tried there) with a random possible play, and rolls back the last insert
 * when that least score is not positive.
 *
 * The matrix lives in an array; its contents at the present cells, as a map, is what the
 * value-level definitions below (`AgreesOn`, `Refresh`, `Scores`, `IsMinimum`) speak about.
 */
module Wfc {
  import opened Wrappers
  import opened Positions
  import opened Cells
  import opened Grids
  import opened Solvers
  import opened Entropies

  /** The entropy recorded for each present cell. */
  type EntropyMap = map<Position, int>

  /** Every present cell has an entropy, and an empty cell's entropy is its number of possible
      plays in the grid. */
  predicate AgreesOn(g: Grid, e: EntropyMap) {
    (forall p | p in g.cells && g.InBounds(p) :: p in e) &&
    (forall p | p in g.cells && g.InBounds(p) && g.cells[p].symbol.None? :: e[p] == |g.PossiblePlays(p)|)
  }

  /** `e` with the entropy of the positions `ps` recomputed from `g`. */
  function Refresh(e: EntropyMap, g: Grid, ps: set<Position>): EntropyMap {
    map q | q in e :: if q in ps then |g.PossiblePlays(q)| else e[q]
  }

  /** What holds between the steps of `solve` and `getNumberOfSolutions`: the grid is the
      starting grid filled along the insertion stack, the entropies are up to date, and a
      consistent starting grid has stayed consistent. */
  predicate SolverInv(start: Grid, g: Grid, trail: seq<Position>, e: EntropyMap) {
    g.WellFormed() && FilledAlong(start, g, trail) && AgreesOn(g, e) &&
    (start.Consistent() ==> g.Consistent())
  }

  /** After a one-cell change, recomputing the cells the propagation reaches keeps every empty
      cell's entropy right, provided the changed cell is recomputed when it became empty. */
  lemma RefreshAgrees(g: Grid, h: Grid, e: EntropyMap, p: Position, s: Symbol)
    requires g.WellFormed() && ChangedAt(g, h, p, s) && AgreesOn(g, e)
    requires h.cells[p].symbol.None? ==> p in TouchedBy(g, g.RuleIds(p), Some(s))
    ensures AgreesOn(h, Refresh(e, h, TouchedBy(h, h.RuleIds(p), Some(s))))
  {
    TouchedBySameShape(g, h, g.RuleIds(p), Some(s));
    var touched := TouchedBy(h, h.RuleIds(p), Some(s));
    var e1 := Refresh(e, h, touched);
    forall q | q in h.cells && h.InBounds(q) && h.cells[q].symbol.None?
      ensures e1[q] == |h.PossiblePlays(q)|
    {
      if q !in touched {
        assert q != p;
        PlaysKept(g, h, p, s, q);
        assert g.cells[q] == h.cells[q];
      }
    }
  }

  /** Inserting a possible play of the grid, then propagating it, keeps the invariant. */
  lemma InsertKeepsSolverInv(start: Grid, g: Grid, trail: seq<Position>, e: EntropyMap, s: Symbol, p: Position)
    requires SolverInv(start, g, trail, e) && s in g.PossiblePlays(p)
    ensures var h := g.Insert(s, p);
            SolverInv(start, h, trail + [p], Refresh(e, h, TouchedBy(h, h.RuleIds(p), Some(s))))
  {
    PlaysIffLegal(g, s, p);
    InsertChanges(g, s, p);
    if start.Consistent() {
      InsertKeepsConsistent(g, s, p);
    }
    FilledAlongPush(start, g, trail, s, p);
    ShapeKeepsWellFormed(g, g.Insert(s, p));
    RefreshAgrees(g, g.Insert(s, p), e, p, s);
  }

  /** The top of the stack is a filled cell with a rule, whose symbol belongs to the alphabet
      of each of its rules. */
  lemma TrailTop(start: Grid, g: Grid, trail: seq<Position>)
    requires FilledAlong(start, g, trail) && trail != []
    ensures var p := trail[|trail| - 1];
            p in g.cells && g.cells[p].symbol.Some? && |g.cells[p].idRules| > 0 &&
            forall r | 0 <= r < |g.rules| && p in g.rules[r].positions :: g.cells[p].symbol.value in g.Alphabet(r)
  {
    var i := |trail| - 1;
    assert trail[i] in start.cells && |start.cells[trail[i]].idRules| > 0;
  }

  /** Rolling back the last insert, then propagating the symbol removed, keeps the invariant. */
  lemma RollBackKeepsSolverInv(start: Grid, g: Grid, trail: seq<Position>, e: EntropyMap)
    requires SolverInv(start, g, trail, e) && trail != []
    ensures var p := trail[|trail| - 1];
            var h := g.Reset(p);
            SolverInv(start, h, trail[..|trail| - 1], Refresh(e, h, TouchedBy(h, h.RuleIds(p), g.SymbolAt(p))))
  {
    var p := trail[|trail| - 1];
    TrailTop(start, g, trail);
    var s := g.cells[p].symbol.value;
    FilledAlongPop(start, g, trail);
    if start.Consistent() {
      ResetKeepsConsistent(g, p);
    }
    ResetChanges(g, p);
    ResetCellTouched(g, p);
    ShapeKeepsWellFormed(g, g.Reset(p));
    RefreshAgrees(g, g.Reset(p), e, p, s);
  }

  /** The score of each empty cell: its entropy less the number of symbols tried there. */
  function Scores(g: Grid, e: EntropyMap, history: History): map<Position, int> {
    map p | p in e && g.IsEmpty(p) :: e[p] - |Tried(history, p)|
  }

  /** Every scored position lies in a `sy` by `sx` grid. */
  predicate Within(scores: map<Position, int>, sy: int, sx: int) {
    forall p | p in scores :: 0 <= p.y < sy && 0 <= p.x < sx
  }

  /** `t` holds the least score of the positions scanned before row `y`, column `x` (or
      Integer.MAX_VALUE), with exactly the scanned positions that reach it. */
  predicate MinimumBefore(t: Tally, scores: map<Position, int>, y: int, x: int) {
    t.value <= Infinity &&
    (forall p | p in scores && Before(p, y, x) :: t.value <= scores[p]) &&
    (forall p | p in t.positions :: p in scores && Before(p, y, x) && scores[p] == t.value) &&
    (forall p | p in scores && Before(p, y, x) && scores[p] == t.value :: p in t.positions) &&
    (t.value == Infinity || t.positions != {})
  }

  /** `t` holds the least score (or Integer.MAX_VALUE) with exactly the positions that reach it. */
  predicate IsMinimum(t: Tally, scores: map<Position, int>) {
    t.value <= Infinity &&
    (forall p | p in scores :: t.value <= scores[p]) &&
    (forall p | p in t.positions :: p in scores && scores[p] == t.value) &&
    (forall p | p in scores && scores[p] == t.value :: p in t.positions) &&
    (t.value == Infinity || t.positions != {})
  }

  lemma MinimumStart(scores: map<Position, int>, sy: int, sx: int)
    requires Within(scores, sy, sx)
    ensures MinimumBefore(Tally(Infinity, {}), scores, 0, 0)
  {
  }

  /** Scanning one more position: `addCell` when it is scored, nothing otherwise. */
  lemma MinimumStep(t: Tally, scores: map<Position, int>, y: int, x: int)
    requires MinimumBefore(t, scores, y, x)
    ensures var p := Position(x, y);
            MinimumBefore(if p in scores then AddStep(t, scores[p], p) else t, scores, y, x + 1)
  {
    var p := Position(x, y);
    forall q | Before(q, y, x + 1)
      ensures Before(q, y, x) || q == p
    {
    }
  }

  lemma MinimumRow(t: Tally, scores: map<Position, int>, sy: int, sx: int, y: int)
    requires Within(scores, sy, sx) && MinimumBefore(t, scores, y, sx)
    ensures MinimumBefore(t, scores, y + 1, 0)
  {
    forall q | q in scores
      ensures Before(q, y, sx) <==> Before(q, y + 1, 0)
    {
    }
  }

  /** A full scan finds the least score over all positions. */
  lemma MinimumEnd(t: Tally, scores: map<Position, int>, sy: int, sx: int)
    requires Within(scores, sy, sx) && MinimumBefore(t, scores, sy, 0)
    ensures IsMinimum(t, scores)
  {
    forall q | q in scores
      ensures Before(q, sy, 0)
    {
    }
  }

  /** A cell whose entropy, as the grid counts it, exceeds the number of symbols tried there
      still has a play left once those symbols are taken out. */
  lemma PlayLeft(g: Grid, tried: set<Option<Symbol>>, p: Position, e: int)
    requires e == |g.PossiblePlays(p)| && e - |tried| > 0
    ensures FilteredPlays(g, tried, p) != {}
  {
    FilteredPlaysBounds(g, tried, p);
  }

  /** A position of least positive score has a symbol left to play, and every symbol left
      is a play of the grid. */
  lemma PlayableChoice(g: Grid, e: EntropyMap, history: History, t: Tally, p: Position)
    requires g.WellFormed() && AgreesOn(g, e) && IsMinimum(t, Scores(g, e, history)) && p in t.positions && t.value > 0
    ensures FilteredPlays(g, Tried(history, p), p) != {}
    ensures FilteredPlays(g, Tried(history, p), p) <= g.PossiblePlays(p)
  {
    PlayLeft(g, Tried(history, p), p, e[p]);
    FilteredPlaysBounds(g, Tried(history, p), p);
  }

  /** The distinct fills of a list of solutions. */
  function Fills(solutions: seq<Grid>): set<Fill> {
    set g | g in solutions :: g.Fill()
  }

  /** The set of hash codes `getNumberOfSolutions` collects: one per solution reached. */
  function Hashes(solutions: seq<Grid>, hash: Fill -> int): set<int> {
    set f | f in Fills(solutions) :: hash(f)
  }

  /** Recording one more solution adds its hash code. */
  lemma HashesAppend(solutions: seq<Grid>, g: Grid, hash: Fill -> int)
    ensures Hashes(solutions + [g], hash) == Hashes(solutions, hash) + {hash(g.Fill())}
  {
    assert Fills(solutions + [g]) == Fills(solutions) + {g.Fill()} by {
      forall f | f in Fills(solutions + [g])
        ensures f in Fills(solutions) + {g.Fill()}
      {
        var h :| h in solutions + [g] && h.Fill() == f;
        if h != g {
          assert h in solutions;
        }
      }
    }
  }

  /** A hash code stands for at least one fill: there are never more codes than fills. */
  lemma {:induction false} ImageNoLarger(fs: set<Fill>, hash: Fill -> int)
    ensures |set f | f in fs :: hash(f)| <= |fs|
    decreases |fs|
  {
    if fs != {} {
      var f :| f in fs;
      var rest := fs - {f};
      ImageNoLarger(rest, hash);
      assert (set x | x in fs :: hash(x)) == (set x | x in rest :: hash(x)) + {hash(f)};
    }
  }

  /** `solutionsSet` holds the hash codes of `solutions`, each a complete grid extending
      `start`, and consistent when `start` is. */
  predicate Recorded(start: Grid, solutions: seq<Grid>, solutionsSet: set<int>, hash: Fill -> int) {
    solutionsSet == Hashes(solutions, hash) &&
    forall i | 0 <= i < |solutions| ::
      Extends(solutions[i], start) && solutions[i].IsComplete() && (start.Consistent() ==> solutions[i].Consistent())
  }

  lemma RecordOne(start: Grid, solutions: seq<Grid>, solutionsSet: set<int>, hash: Fill -> int, g: Grid, trail: seq<Position>)
    requires Recorded(start, solutions, solutionsSet, hash)
    requires FilledAlong(start, g, trail) && g.IsComplete() && (start.Consistent() ==> g.Consistent())
    ensures Recorded(start, solutions + [g], solutionsSet + {hash(g.Fill())}, hash)
  {
    FilledAlongExtends(start, g, trail);
    HashesAppend(solutions, g, hash);
    var sols := solutions + [g];
    forall i | 0 <= i < |sols|
      ensures Extends(sols[i], start) && sols[i].IsComplete() && (start.Consistent() ==> sols[i].Consistent())
    {
      if i < |solutions| {
        assert sols[i] == solutions[i];
      }
    }
  }

  /** A complete grid has no empty cell to score: the minimum is empty and stays at
      Integer.MAX_VALUE. */
  lemma NoCandidateWhenComplete(g: Grid, e: EntropyMap, history: History, t: Tally)
    requires g.IsComplete() && IsMinimum(t, Scores(g, e, history))
    ensures t.positions == {} && t.value == Infinity
  {
    assert Scores(g, e, history) == map[];
    assert forall p :: p !in t.positions;
  }

  class WaveFunctionCollapse {
    const core: Solver
    /** `entropy[y][x]`. */
    const entropy: array2<int>

    constructor (grid: Grid, hash: Fill -> int)
      requires grid.size.x >= 0 && grid.size.y >= 0
      ensures fresh(core) && fresh(entropy)
      ensures core.grid == grid && core.hash == hash && core.lastInserts == [] && core.history == map[]
      ensures Sized()
    {
      core := new Solver(grid, hash);
      entropy := new int[grid.size.y, grid.size.x];
    }

    /** The matrix has one row per row of `g` and one column per column of `g`. */
    predicate Fits(g: Grid) {
      entropy.Length0 == g.size.y && entropy.Length1 == g.size.x
    }

    predicate Sized()
      reads this, core
    {
      Fits(core.grid)
    }

    /** The matrix at the present cells of `g`. */
    ghost function Snapshot(g: Grid): EntropyMap
      reads entropy
      requires Fits(g)
    {
      map p | p in g.cells && g.InBounds(p) :: entropy[p.y, p.x]
    }

    /** The solver invariant on the current state. */
    ghost predicate Inv(start: Grid)
      reads this, core, entropy
    {
      Sized() && SolverInv(start, core.grid, core.lastInserts, Snapshot(core.grid))
    }

    /** The scores `getPositionsMinimumEntropy` compares, in the current state. */
    ghost function CurrentScores(): map<Position, int>
      reads this, core, entropy
      requires Sized()
    {
      Scores(core.grid, Snapshot(core.grid), core.Current())
    }

    /** What `fillEntropy` stores for a position: -1 for an absent or filled cell, otherwise
        the number of its possible plays. */
    function Seed(p: Position): int
      reads this, core
    {
      if !core.grid.IsEmpty(p) then -1 else |core.PossiblePlays(p)|
    }

    /** `fillEntropy`. */
    method FillEntropy()
      requires Sized()
      modifies entropy
      ensures forall y, x | 0 <= y < entropy.Length0 && 0 <= x < entropy.Length1 ::
                entropy[y, x] == Seed(Position(x, y))
    {
      for y := 0 to core.grid.size.y
        invariant forall yy, x | 0 <= yy < y && 0 <= x < entropy.Length1 :: entropy[yy, x] == Seed(Position(x, yy))
      {
        for x := 0 to core.grid.size.x
          invariant forall yy, xx | 0 <= yy < y && 0 <= xx < entropy.Length1 :: entropy[yy, xx] == Seed(Position(xx, yy))
          invariant forall xx | 0 <= xx < x :: entropy[y, xx] == Seed(Position(xx, y))
        {
          var position := Position(x, y);
          if !core.grid.IsEmpty(position) {
            entropy[y, x] := -1;
          } else {
            entropy[y, x] := |core.PossiblePlays(position)|;
          }
        }
      }
    }

    /** `fillEntropy` with an empty history makes every empty cell's entropy right. */
    method FillFresh()
      requires Sized() && core.history == map[]
      modifies entropy
      ensures AgreesOn(core.grid, Snapshot(core.grid))
    {
      FillEntropy();
      forall p | p in core.grid.cells && core.grid.InBounds(p) && core.grid.cells[p].symbol.None?
        ensures entropy[p.y, p.x] == |core.grid.PossiblePlays(p)|
      {
        FilteredPlaysBounds(core.grid, core.HistoryInsert(p), p);
      }
    }

    /** The first half of `propagateEntropy`: the positions of the rules of `position`
        whose alphabet holds `symbol`. */
    method TouchedPositions(symbol: Option<Symbol>, position: Position) returns (positions: set<Position>)
      ensures positions == TouchedBy(core.grid, core.grid.RuleIds(position), symbol)
    {
      positions := {};
      var idRules := core.grid.RuleIds(position);
      for i := 0 to |idRules|
        invariant positions == TouchedBy(core.grid, idRules[..i], symbol)
      {
        assert idRules[..i + 1][..i] == idRules[..i];
        if symbol.Some? && symbol.value in core.grid.Alphabet(idRules[i]) {
          positions := positions + core.grid.RulePositions(idRules[i]);
        }
      }
      assert idRules[..|idRules|] == idRules;
    }

    /** The second half of `propagateEntropy`: the entropy of each of `positions` becomes its
        number of possible plays in the grid; every other entry is kept. */
    method Recompute(positions: set<Position>)
      requires Sized() && forall q | q in positions :: core.grid.InBounds(q)
      modifies entropy
      ensures forall y, x | 0 <= y < entropy.Length0 && 0 <= x < entropy.Length1 ::
                entropy[y, x] ==
                  if Position(x, y) in positions then |core.grid.PossiblePlays(Position(x, y))| else old(entropy[y, x])
      ensures Snapshot(core.grid) == Refresh(old(Snapshot(core.grid)), core.grid, positions)
    {
      var remaining := positions;
      while remaining != {}
        invariant remaining <= positions
        invariant forall y, x | 0 <= y < entropy.Length0 && 0 <= x < entropy.Length1 ::
                    entropy[y, x] ==
                      if Position(x, y) in positions - remaining
                      then |core.grid.PossiblePlays(Position(x, y))| else old(entropy[y, x])
        decreases |remaining|
      {
        var positionEntropy :| positionEntropy in remaining;
        entropy[positionEntropy.y, positionEntropy.x] := |core.grid.PossiblePlays(positionEntropy)|;
        remaining := remaining - {positionEntropy};
      }
      ghost var e0 := old(Snapshot(core.grid));
      assert Snapshot(core.grid).Keys == e0.Keys;
    }

    /** `propagateEntropy(symbol, position)`: recomputes from the grid the entropy of every
        position of the rules of `position` whose alphabet holds `symbol`, and of no other. */
    method PropagateEntropy(symbol: Option<Symbol>, position: Position)
      requires Sized() && core.grid.WellFormed()
      modifies entropy
      ensures forall y, x | 0 <= y < entropy.Length0 && 0 <= x < entropy.Length1 ::
                entropy[y, x] ==
                  if Position(x, y) in TouchedBy(core.grid, core.grid.RuleIds(position), symbol)
                  then |core.grid.PossiblePlays(Position(x, y))| else old(entropy[y, x])
      ensures Snapshot(core.grid) ==
                Refresh(old(Snapshot(core.grid)), core.grid, TouchedBy(core.grid, core.grid.RuleIds(position), symbol))
    {
      var positions := TouchedPositions(symbol, position);
      TouchedInRelated(core.grid, core.grid.RuleIds(position), symbol);
      RelatedAreCells(core.grid, position);
      Recompute(positions);
    }

    /** `insertSymbol`: the shared insert, then propagation of the inserted symbol. Inserting
        a possible play of the grid keeps the solver invariant. */
    method InsertSymbol(symbol: Symbol, position: Position, ghost start: Grid)
      requires Sized() && core.grid.WellFormed()
      modifies core, entropy
      ensures core.grid == old(core.grid).Insert(symbol, position)
      ensures core.lastInserts == old(core.lastInserts) + [position]
      ensures core.history == old(core.history)
      ensures Sized() && core.grid.WellFormed()
      ensures forall y, x | 0 <= y < entropy.Length0 && 0 <= x < entropy.Length1 ::
                entropy[y, x] ==
                  if Position(x, y) in TouchedBy(core.grid, core.grid.RuleIds(position), Some(symbol))
                  then |core.grid.PossiblePlays(Position(x, y))| else old(entropy[y, x])
      ensures old(Inv(start)) && symbol in old(core.grid.PossiblePlays(position)) ==> Inv(start)
    {
      ghost var g0 := core.grid;
      ghost var e0 := Snapshot(g0);
      core.InsertSymbol(symbol, position);
      ShapeKeepsWellFormed(g0, core.grid);
      assert Snapshot(core.grid) == e0;
      PropagateEntropy(Some(symbol), position);
      if old(Inv(start)) && symbol in g0.PossiblePlays(position) {
        InsertKeepsSolverInv(start, g0, old(core.lastInserts), e0, symbol, position);
      }
    }

    /** `rollBack`: the shared rollback, then propagation of the symbol the cell held. It
        keeps the solver invariant. */
    method RollBack(ghost start: Grid)
      requires Sized() && core.grid.WellFormed()
      modifies core, entropy
      ensures Sized() && core.grid.WellFormed()
      ensures old(core.lastInserts) == [] ==>
                core.grid == old(core.grid) && core.lastInserts == [] && core.history == old(core.history) &&
                unchanged(entropy)
      ensures old(core.lastInserts) != [] ==>
                var p := old(core.lastInserts)[|old(core.lastInserts)| - 1];
                core.lastInserts == old(core.lastInserts)[..|old(core.lastInserts)| - 1] &&
                core.grid == old(core.grid).Reset(p) &&
                (var k := core.hash(old(core.grid).Reset(p).Fill());
                 var h := StateHistory(old(core.history), k);
                 core.history == old(core.history)[k := h[p := Tried(h, p) + {old(core.grid).SymbolAt(p)}]]) &&
                forall y, x | 0 <= y < entropy.Length0 && 0 <= x < entropy.Length1 ::
                  entropy[y, x] ==
                    if Position(x, y) in TouchedBy(core.grid, core.grid.RuleIds(p), old(core.grid).SymbolAt(p))
                    then |core.grid.PossiblePlays(Position(x, y))| else old(entropy[y, x])
      ensures HistoryGrows(old(core.history), core.history)
      ensures old(Inv(start)) ==> Inv(start)
    {
      if core.lastInserts == [] {
        return;
      }
      ghost var g0 := core.grid;
      ghost var e0 := Snapshot(g0);
      ghost var trail := core.lastInserts;
      var lastMovePosition := core.lastInserts[|core.lastInserts| - 1];
      var lastSymbolInserted := core.grid.SymbolAt(lastMovePosition);
      core.RollBack();
      ShapeKeepsWellFormed(g0, core.grid);
      assert Snapshot(core.grid) == e0;
      PropagateEntropy(lastSymbolInserted, lastMovePosition);
      if old(Inv(start)) {
        RollBackKeepsSolverInv(start, g0, trail, e0);
      }
    }

    /** `getPositionsMinimumEntropy`: scans the grid row by row and accumulates the empty
        cells of least score. */
    method GetPositionsMinimumEntropy() returns (cellsEntropy: Entropy)
      requires Sized() && core.grid.WellFormed()
      ensures fresh(cellsEntropy)
      ensures IsMinimum(cellsEntropy.State(), CurrentScores())
    {
      ghost var scores := CurrentScores();
      assert Within(scores, core.grid.size.y, core.grid.size.x);
      cellsEntropy := new Entropy();
      MinimumStart(scores, core.grid.size.y, core.grid.size.x);
      for y := 0 to core.grid.size.y
        invariant MinimumBefore(cellsEntropy.State(), scores, y, 0)
      {
        for x := 0 to core.grid.size.x
          invariant MinimumBefore(cellsEntropy.State(), scores, y, x)
        {
          ScanEntropyCell(cellsEntropy, scores, y, x);
        }
        MinimumRow(cellsEntropy.State(), scores, core.grid.size.y, core.grid.size.x, y);
      }
      MinimumEnd(cellsEntropy.State(), scores, core.grid.size.y, core.grid.size.x);
    }

    /** One cell of the scan in `getPositionsMinimumEntropy`: a present cell without a
        symbol offers its entropy less the number of symbols tried there. */
    method ScanEntropyCell(cellsEntropy: Entropy, ghost scores: map<Position, int>, y: int, x: int)
      requires Sized() && scores == CurrentScores()
      requires 0 <= y < core.grid.size.y && 0 <= x < core.grid.size.x
      requires MinimumBefore(cellsEntropy.State(), scores, y, x)
      modifies cellsEntropy
      ensures MinimumBefore(cellsEntropy.State(), scores, y, x + 1)
    {
      var position := Position(x, y);
      MinimumStep(cellsEntropy.State(), scores, y, x);
      if core.grid.InsideGrid(position) && core.grid.SymbolAt(position).None? {
        var alreadyDone := |core.HistoryInsert(position)|;
        assert position in scores && scores[position] == entropy[y, x] - alreadyDone;
        cellsEntropy.AddCell(entropy[y, x] - alreadyDone, position);
      } else {
        assert position !in scores;
      }
    }

    /** The insert step shared by `solve` and `getNumberOfSolutions`: a random position of
        least score, then a random symbol among its possible plays. When the least score is
        positive the plays are never empty, so the random choices cannot fail. */
    method ChooseAndInsert(t: Tally, ghost start: Grid)
      requires Inv(start) && IsMinimum(t, CurrentScores()) && t.positions != {} && t.value > 0
      modifies core, entropy
      ensures Inv(start)
      ensures exists p, s :: p in t.positions && s in old(core.PossiblePlays(p)) &&
                core.grid == old(core.grid).Insert(s, p) && core.lastInserts == old(core.lastInserts) + [p]
      ensures core.history == old(core.history)
    {
      var randomPosition := core.ChooseRandomPosition(t.positions);
      var position := randomPosition.value;
      PlayableChoice(core.grid, Snapshot(core.grid), core.Current(), t, position);
      var possiblePlays := core.PossiblePlays(position);
      var randomSymbol := core.ChooseRandomSymbol(possiblePlays);
      assert Inv(start) && randomSymbol.value in core.grid.PossiblePlays(position);
      InsertSymbol(randomSymbol.value, position, start);
    }

    /** One turn of `solve` or `getNumberOfSolutions` on a grid that is not complete: roll
        back when no candidate is left or the least score is not positive, insert otherwise. */
    method Advance(t: Tally, ghost start: Grid)
      requires Inv(start) && IsMinimum(t, CurrentScores())
      modifies core, entropy
      ensures Inv(start)
    {
      if t.positions == {} || t.value <= 0 {
        RollBack(start);
      } else {
        ChooseAndInsert(t, start);
      }
    }

    /** `solve`, run for at most `fuel` turns of its loop. `finished` says the loop ended: the
        grid is complete, or no candidate was left with nothing to roll back, and then the
        grid is back to the one the solver started from. The grid only ever gains symbols, and
        it stays consistent when it was, so a complete grid is then a solution. */
    method Solve(fuel: nat) returns (finished: bool)
      requires Sized() && core.grid.WellFormed()
      modifies core, entropy
      ensures Sized() && core.grid.WellFormed()
      ensures Extends(core.grid, old(core.grid))
      ensures old(core.grid).Consistent() ==> core.grid.Consistent()
      ensures finished ==> core.grid.IsComplete() || core.grid == old(core.grid)
    {
      core.Clear();
      FillFresh();
      ghost var start := core.grid;
      FilledAlongStart(start);
      var stuck := false;
      var fuelLeft := fuel;
      while !core.grid.IsComplete() && !stuck && fuelLeft > 0
        invariant Inv(start) && start == old(core.grid)
        invariant stuck ==> core.lastInserts == []
        decreases fuelLeft
      {
        fuelLeft := fuelLeft - 1;
        var cellsEntropy := GetPositionsMinimumEntropy();
        var positionsMinimumEntropy := cellsEntropy.positionCells;
        if positionsMinimumEntropy == {} && core.lastInserts == [] {
          stuck := true;
        } else {
          Advance(cellsEntropy.State(), start);
        }
      }
      finished := core.grid.IsComplete() || stuck;
      FilledAlongExtends(start, core.grid, core.lastInserts);
      if stuck {
        FilledAlongNil(start, core.grid);
      }
    }

    /** One turn of the `getNumberOfSolutions` loop: a complete grid has its hash code
        recorded and is rolled back; any other grid goes on as in `Advance`. */
    method CountTurn(t: Tally, solutionsSet: set<int>, ghost solutions: seq<Grid>, ghost start: Grid)
      returns (newSet: set<int>, ghost newSolutions: seq<Grid>)
      requires Inv(start) && IsMinimum(t, CurrentScores()) && Recorded(start, solutions, solutionsSet, core.hash)
      modifies core, entropy
      ensures Inv(start) && Recorded(start, newSolutions, newSet, core.hash)
      ensures old(core.grid).IsComplete() && old(core.lastInserts) == [] ==>
                core.grid == old(core.grid) && core.lastInserts == [] && newSet == solutionsSet + {core.hash(old(core.grid).Fill())}
    {
      if core.grid.IsComplete() {
        RecordOne(start, solutions, solutionsSet, core.hash, core.grid, core.lastInserts);
        newSet := solutionsSet + {core.hash(core.grid.Fill())};
        newSolutions := solutions + [core.grid];
        RollBack(start);
      } else {
        newSet, newSolutions := solutionsSet, solutions;
        Advance(t, start);
      }
    }

    /** The body of the `getNumberOfSolutions` loop: one turn, then the scan for the least
        score. On a complete grid with nothing to roll back the turn records its hash code and
        the scan finds no candidate. */
    method CountAndScan(t: Tally, solutionsSet: set<int>, ghost solutions: seq<Grid>, ghost start: Grid)
      returns (newSet: set<int>, ghost newSolutions: seq<Grid>, t': Tally)
      requires Inv(start) && IsMinimum(t, CurrentScores()) && Recorded(start, solutions, solutionsSet, core.hash)
      modifies core, entropy
      ensures Inv(start) && Recorded(start, newSolutions, newSet, core.hash)
      ensures IsMinimum(t', CurrentScores())
      ensures old(core.grid).IsComplete() && old(core.lastInserts) == [] ==>
                core.grid == old(core.grid) && core.lastInserts == [] && newSet == solutionsSet + {core.hash(old(core.grid).Fill())} &&
                t'.positions == {} && t'.value == Infinity
    {
      newSet, newSolutions := CountTurn(t, solutionsSet, solutions, start);
      var cellsEntropy := GetPositionsMinimumEntropy();
      t' := cellsEntropy.State();
      if core.grid.IsComplete() {
        NoCandidateWhenComplete(core.grid, Snapshot(core.grid), core.Current(), t');
      }
    }

    /** `getNumberOfSolutions`, run for at most `fuel` turns of its loop; `exitWhenExhausted`
        adds the exit the source lacks (see GetNumberOfSolutions and
        GetNumberOfSolutionsFixed). Every grid counted is a solution, `count` is the number of
        distinct hash codes among them, and when the loop ends the grid is back to its start. */
    method CountSolutions(fuel: nat, exitWhenExhausted: bool)
      returns (count: int, finished: bool, ghost solutions: seq<Grid>)
      requires Sized() && core.grid.WellFormed()
      modifies core, entropy
      ensures Sized() && core.grid.WellFormed()
      ensures Extends(core.grid, old(core.grid))
      ensures count == |Hashes(solutions, core.hash)| <= |Fills(solutions)|
      ensures Recorded(old(core.grid), solutions, Hashes(solutions, core.hash), core.hash)
      ensures finished ==> core.grid == old(core.grid) && core.lastInserts == []
      ensures old(core.grid).IsComplete() && !exitWhenExhausted ==> !finished
      ensures old(core.grid).IsComplete() && exitWhenExhausted && fuel > 0 ==> finished && count == 1
    {
      core.Clear();
      FillFresh();
      ghost var start := core.grid;
      FilledAlongStart(start);
      var solutionsSet: set<int> := {};
      solutions := [];
      var cellsEntropy := GetPositionsMinimumEntropy();
      var t := cellsEntropy.State();
      var minimum := t.value;
      finished := false;
      var fuelLeft := fuel;
      while fuelLeft > 0 && !finished
        invariant Inv(start) && start == old(core.grid)
        invariant IsMinimum(t, CurrentScores()) && minimum == t.value
        invariant Recorded(start, solutions, solutionsSet, core.hash)
        invariant finished ==> core.lastInserts == []
        invariant start.IsComplete() ==>
                    core.lastInserts == [] && core.grid == start &&
                    (finished <==> exitWhenExhausted && fuelLeft < fuel) &&
                    solutionsSet == if fuelLeft < fuel then {core.hash(start.Fill())} else {}
        decreases fuelLeft
      {
        fuelLeft := fuelLeft - 1;
        solutionsSet, solutions, t := CountAndScan(t, solutionsSet, solutions, start);
        minimum := t.value;
        finished := core.lastInserts == [] && (minimum <= 0 || (exitWhenExhausted && t.positions == {}));
      }
      count := |solutionsSet|;
      ImageNoLarger(Fills(solutions), core.hash);
      FilledAlongExtends(start, core.grid, core.lastInserts);
      if finished {
        FilledAlongNil(start, core.grid);
      }
    }

    /** `getNumberOfSolutions` as the source writes it: the loop goes on while the stack is
        not empty or the least score is positive. On a grid that is already complete it
        never ends: nothing is left to roll back and, with no empty cell, the least score
        stays Integer.MAX_VALUE. */
    method GetNumberOfSolutions(fuel: nat) returns (count: int, finished: bool, ghost solutions: seq<Grid>)
      requires Sized() && core.grid.WellFormed()
      modifies core, entropy
      ensures Sized() && core.grid.WellFormed()
      ensures Extends(core.grid, old(core.grid))
      ensures count == |Hashes(solutions, core.hash)| <= |Fills(solutions)|
      ensures Recorded(old(core.grid), solutions, Hashes(solutions, core.hash), core.hash)
      ensures finished ==> core.grid == old(core.grid)
      ensures old(core.grid).IsComplete() ==> !finished
    {
      count, finished, solutions := CountSolutions(fuel, false);
    }

    /** `getNumberOfSolutions` with the exit it evidently intends: it also stops when the
        stack is empty and no empty cell is left, so a complete grid counts as one solution. */
    method GetNumberOfSolutionsFixed(fuel: nat) returns (count: int, finished: bool, ghost solutions: seq<Grid>)
      requires Sized() && core.grid.WellFormed()
      modifies core, entropy
      ensures Sized() && core.grid.WellFormed()
      ensures Extends(core.grid, old(core.grid))
      ensures count == |Hashes(solutions, core.hash)| <= |Fills(solutions)|
      ensures Recorded(old(core.grid), solutions, Hashes(solutions, core.hash), core.hash)
      ensures finished ==> core.grid == old(core.grid)
      ensures old(core.grid).IsComplete() && fuel > 0 ==> finished && count == 1
    {
      count, finished, solutions := CountSolutions(fuel, true);
    }
  }
}
