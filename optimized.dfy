/**
 * The optimised backtracking solver (`solvers.backtrack.BacktrackOptimized`): it always
 * branches on the empty cell with the fewest candidates (ties go to the cell in more rules),
 * caches the candidates of each cell and drops the entries of every cell sharing a rule with a
 * changed one, forward-checks each insert and fills hidden singles, and after a failed
 * candidate pops the shared stack back to the branching cell.
 */
module OptimizedBacktracks {
  import opened Wrappers
  import opened Lists
  import opened Positions
  import opened Cells
  import opened Grids
  import opened Solvers
  import Entropies

  type Cache = map<Position, set<Symbol>>

  /** What `getPossiblePlaysWithCache(q)` answers: the cached set when there is one, and
      otherwise the solver's candidates, which are then cached. */
  function CandidatesOf(cache: Cache, g: Grid, h: History, q: Position): set<Symbol> {
    if q in cache then cache[q] else FilteredPlays(g, Tried(h, q), q)
  }

  /** Every cached set holds only plays the grid allows. */
  predicate SoundCache(cache: Cache, g: Grid) {
    forall q | q in cache :: cache[q] <= g.PossiblePlays(q)
  }

  /** Every cached set is what the solver would compute now. */
  predicate CoherentCache(cache: Cache, g: Grid, h: History) {
    forall q | q in cache :: cache[q] == FilteredPlays(g, Tried(h, q), q)
  }

  /** `invalidateCache(p)`: the cache without `p` and without every position of a rule of `p`. */
  function Invalidated(cache: Cache, g: Grid, p: Position): Cache {
    cache - {p} - RelatedBy(g, g.RuleIds(p))
  }

  /** Cache `c` answers as `c0` did: it keeps the entries of `c0` and only adds answers. */
  predicate Refines(c: Cache, c0: Cache, g: Grid, h: History) {
    (forall q | q in c0 :: q in c && c[q] == c0[q]) &&
    (forall q | q in c :: c[q] == CandidatesOf(c0, g, h, q))
  }

  /** The other empty cells sharing a rule with `p`: those forward checking and hidden
      singles look at. */
  function Neighbours(g: Grid, p: Position): set<Position> {
    set q | q in RelatedBy(g, g.RuleIds(p)) && q != p && g.IsEmpty(q)
  }

  /** Every alphabet is smaller than Integer.MAX_VALUE, as every Java set is. */
  predicate SmallAlphabets(g: Grid) {
    forall k | 0 <= k < |g.alphabets| :: |g.alphabets[k]| < Entropies.Infinity
  }

  /** A sound cache only answers plays the grid allows, and fewer than Integer.MAX_VALUE of
      them when the alphabets are small. */
  lemma CandidatesSound(cache: Cache, g: Grid, h: History, q: Position)
    requires SoundCache(cache, g)
    ensures CandidatesOf(cache, g, h, q) <= g.PossiblePlays(q)
    ensures g.WellFormed() && SmallAlphabets(g) ==> |CandidatesOf(cache, g, h, q)| < Entropies.Infinity
  {
    FilteredPlaysBounds(g, Tried(h, q), q);
    var plays := g.PossiblePlays(q);
    if g.WellFormed() && SmallAlphabets(g) && plays != {} {
      var r := g.cells[q].idRules[0];
      assert plays <= g.Alphabet(r);
      SubsetCard(plays, g.Alphabet(r));
      SubsetCard(CandidatesOf(cache, g, h, q), plays);
    }
  }

  /** A coherent cache answers exactly the solver's candidates. */
  lemma CandidatesCoherent(cache: Cache, g: Grid, h: History, q: Position)
    requires CoherentCache(cache, g, h)
    ensures CandidatesOf(cache, g, h, q) == FilteredPlays(g, Tried(h, q), q)
  {
  }

  /** A refining cache answers the same everywhere. */
  lemma RefinesAnswers(c: Cache, c0: Cache, g: Grid, h: History, q: Position)
    requires Refines(c, c0, g, h)
    ensures CandidatesOf(c, g, h, q) == CandidatesOf(c0, g, h, q)
  {
  }

  /** Looking a position up adds its answer and keeps the cache sound and coherent. */
  lemma FetchRefines(c0: Cache, g: Grid, h: History, p: Position)
    ensures var c := if p in c0 then c0 else c0[p := FilteredPlays(g, Tried(h, p), p)];
            Refines(c, c0, g, h) &&
            (SoundCache(c0, g) ==> SoundCache(c, g)) &&
            (CoherentCache(c0, g, h) ==> CoherentCache(c, g, h))
  {
    FilteredPlaysBounds(g, Tried(h, p), p);
  }

  /** Refinement is transitive. */
  lemma RefinesTransitive(c2: Cache, c1: Cache, c0: Cache, g: Grid, h: History)
    requires Refines(c2, c1, g, h) && Refines(c1, c0, g, h)
    ensures Refines(c2, c0, g, h)
  {
    forall q | q in c2
      ensures c2[q] == CandidatesOf(c0, g, h, q)
    {
      RefinesAnswers(c1, c0, g, h, q);
    }
  }

  /** After a change of one cell (or none), dropping the entries of that cell and of every
      cell sharing a rule with it keeps the cache sound, and keeps it coherent when the
      history changed at most at that cell. */
  lemma InvalidatedKeeps(cache: Cache, g: Grid, h: History, g2: Grid, h2: History, p: Position, s: Symbol)
    requires g.WellFormed() && (g2 == g || ChangedAt(g, g2, p, s))
    requires forall q | q != p :: Tried(h2, q) == Tried(h, q)
    ensures SoundCache(cache, g) ==> SoundCache(Invalidated(cache, g, p), g2)
    ensures CoherentCache(cache, g, h) ==> CoherentCache(Invalidated(cache, g, p), g2, h2)
  {
    var c := Invalidated(cache, g, p);
    forall q | q in c
      ensures g2.PossiblePlays(q) == g.PossiblePlays(q)
    {
      if g2 != g {
        PlaysKeptOffRelated(g, g2, p, s, q);
      }
    }
  }

  /** What is invalidated depends only on the shape of the grid. */
  lemma InvalidatedShape(cache: Cache, g: Grid, h: Grid, p: Position)
    requires SameShape(g, h)
    ensures Invalidated(cache, g, p) == Invalidated(cache, h, p)
  {
    assert g.RuleIds(p) == h.RuleIds(p);
    TouchedBySameShape(g, h, g.RuleIds(p), None);
  }

  /** A grid stays the same when an empty or absent cell is cleared. */
  lemma ResetOfEmpty(g: Grid, p: Position)
    requires !(p in g.cells && g.cells[p].symbol.Some?)
    ensures g.Reset(p) == g
  {
    if p in g.cells {
      assert g.Reset(p).cells == g.cells;
    }
  }

  class BacktrackOptimized {
    const core: Solver
    var cache: Cache

    constructor (grid: Grid, hash: Fill -> int)
      ensures fresh(core)
      ensures core.grid == grid && core.hash == hash && core.lastInserts == [] && core.history == map[] && cache == map[]
    {
      core := new Solver(grid, hash);
      cache := map[];
    }

    predicate Sound()
      reads this, core
    {
      SoundCache(cache, core.grid)
    }

    predicate Coherent()
      reads this, core
    {
      CoherentCache(cache, core.grid, core.Current())
    }

    /** What `getPossiblePlaysWithCache(q)` would answer now. */
    function Candidates(q: Position): set<Symbol>
      reads this, core
    {
      CandidatesOf(cache, core.grid, core.Current(), q)
    }

    /** `solve`: empties the stack and the history (not the cache) and searches. On success
        the grid is complete and the stack lists the cells filled; otherwise the grid is as
        it was and the stack is empty. */
    method Solve()
      requires core.grid.WellFormed() && Sound() && SmallAlphabets(core.grid)
      modifies this, core
      ensures core.grid.WellFormed() && Sound()
      ensures FilledAlong(old(core.grid), core.grid, core.lastInserts)
      ensures core.grid.IsComplete() || (core.grid == old(core.grid) && core.lastInserts == [])
      ensures old(core.grid).Consistent() ==> core.grid.Consistent()
    {
      core.Clear();
      ghost var g := core.grid;
      var found, added := BacktrackMinimumRemainingValues();
      if !found {
        FilledAlongStart(g);
      }
    }

    /** `getNumberOfSolutions`: empties the stack and the history and answers 0. */
    method GetNumberOfSolutions() returns (count: int)
      modifies core
      ensures count == 0
      ensures core.grid == old(core.grid) && core.lastInserts == [] && core.history == map[]
    {
      core.Clear();
      return 0;
    }

    /** `backtrackMinimumRemainingValues`: branches on the most constrained cell. On success
        nothing is undone and the grid is complete; on failure the grid and the stack are as
        they were, and only the history has grown. */
    method BacktrackMinimumRemainingValues() returns (found: bool, ghost added: seq<Position>)
      requires core.grid.WellFormed() && Sound() && SmallAlphabets(core.grid)
      modifies this, core
      decreases core.grid.EmptyCount(), 1
      ensures core.grid.WellFormed() && Sound()
      ensures found ==> core.grid.IsComplete() && core.lastInserts == old(core.lastInserts) + added &&
                        FilledAlong(old(core.grid), core.grid, added)
      ensures !found ==> core.grid == old(core.grid) && core.lastInserts == old(core.lastInserts)
      ensures HistoryGrows(old(core.history), core.history)
      ensures old(core.grid).Consistent() ==> core.grid.Consistent()
    {
      ghost var consistent := old(core.grid).Consistent();
      var nextPos := FindMostConstrainedCell();
      if nextPos.None? {
        FilledAlongStart(core.grid);
        return true, [];
      }
      var p := nextPos.value;
      ghost var cBefore := cache;
      var possibleValues := GetPossiblePlaysWithCache(p);
      CandidatesSound(cBefore, core.grid, core.Current(), p);
      ghost var g := core.grid;
      ghost var prefix := core.lastInserts;
      var remaining := possibleValues;
      while remaining != {}
        invariant core.grid == g && core.lastInserts == prefix && SoundCache(cache, g)
        invariant remaining <= possibleValues && possibleValues <= g.PossiblePlays(p)
        invariant HistoryGrows(old(core.history), core.history)
        invariant consistent ==> g.Consistent()
        decreases |remaining|
      {
        var value :| value in remaining;
        remaining := remaining - {value};
        ghost var h := core.history;
        found, added := TryValue(p, value);
        HistoryGrowsTransitive(old(core.history), h, core.history);
        if found {
          return;
        }
      }
      return false, [];
    }

    /** One pass of the loop of `backtrackMinimumRemainingValues`: places `value` at `p`,
        propagates and searches on; on failure everything done since is unwound. */
    method TryValue(p: Position, value: Symbol) returns (found: bool, ghost added: seq<Position>)
      requires core.grid.WellFormed() && SoundCache(cache, core.grid) && SmallAlphabets(core.grid)
      requires value in core.grid.PossiblePlays(p)
      modifies this, core
      decreases core.grid.EmptyCount(), 0
      ensures core.grid.WellFormed() && SoundCache(cache, core.grid)
      ensures found ==> core.grid.IsComplete() && core.lastInserts == old(core.lastInserts) + added &&
                        FilledAlong(old(core.grid), core.grid, added)
      ensures !found ==> core.grid == old(core.grid) && core.lastInserts == old(core.lastInserts)
      ensures HistoryGrows(old(core.history), core.history)
      ensures old(core.grid).Consistent() ==> core.grid.Consistent()
    {
      ghost var g, prefix := core.grid, core.lastInserts;
      PlaysIffLegal(g, value, p);
      InsertFillsOne(g, value, p);
      FilledAlongStart(g);
      FilledAlongPush(g, g, [], value, p);
      assert [] + [p] == [p];
      Place(value, p);
      ghost var g1 := core.grid;
      assert FilledAlong(g, g1, [p]);
      var ok, more := ValidateAndPropagate(p);
      FilledAlongConcat(g, g1, core.grid, [p], more);
      FilledAlongExtends(g1, core.grid, more);
      ExtendsFewerEmpty(core.grid, g1);
      ghost var t := [p] + more;
      AppendAssociative(prefix, [p], more);
      if ok {
        ghost var g2 := core.grid;
        var solved, rest := BacktrackMinimumRemainingValues();
        if solved {
          FilledAlongConcat(g, g2, core.grid, t, rest);
          AppendAssociative(prefix, t, rest);
          return true, t + rest;
        }
      }
      Unwind(p, g, prefix, t);
      return false, [];
    }

    /** The unwinding after a failed candidate: pops until the branching cell is on top, then
        pops it too. Every push since the candidate filled a distinct empty cell, so this
        restores the stack and the grid of before the candidate. */
    method Unwind(nextPos: Position, ghost base: Grid, ghost prefix: seq<Position>, ghost t: seq<Position>)
      requires core.grid.WellFormed() && SoundCache(cache, core.grid)
      requires core.lastInserts == prefix + t && FilledAlong(base, core.grid, t) && t != [] && t[0] == nextPos
      modifies this, core
      ensures core.grid == base && core.lastInserts == prefix && SoundCache(cache, core.grid)
      ensures HistoryGrows(old(core.history), core.history)
      ensures old(core.grid).Consistent() ==> core.grid.Consistent()
    {
      ghost var trail := t;
      ghost var consistent := old(core.grid).Consistent();
      while |core.lastInserts| > 0 && core.lastInserts[|core.lastInserts| - 1] != nextPos
        invariant core.grid.WellFormed() && SoundCache(cache, core.grid)
        invariant core.lastInserts == prefix + trail && FilledAlong(base, core.grid, trail)
        invariant trail != [] && trail[0] == nextPos
        invariant HistoryGrows(old(core.history), core.history)
        invariant consistent ==> core.grid.Consistent()
        decreases |trail|
      {
        assert trail[|trail| - 1] != nextPos;
        ghost var h := core.history;
        PopOne(base, prefix, trail, consistent);
        HistoryGrowsTransitive(old(core.history), h, core.history);
        trail := trail[..|trail| - 1];
      }
      assert |trail| == 1 by {
        assert trail[|trail| - 1] == nextPos;
      }
      ghost var h := core.history;
      PopOne(base, prefix, trail, consistent);
      HistoryGrowsTransitive(old(core.history), h, core.history);
      FilledAlongNil(base, core.grid);
    }

    /** One roll-back of the unwinding: the cell on top of the stack is the last of the trail. */
    method PopOne(ghost base: Grid, ghost prefix: seq<Position>, ghost trail: seq<Position>, ghost consistent: bool)
      requires core.grid.WellFormed() && SoundCache(cache, core.grid)
      requires core.lastInserts == prefix + trail && FilledAlong(base, core.grid, trail) && trail != []
      requires consistent ==> core.grid.Consistent()
      modifies this, core
      ensures core.grid.WellFormed() && SoundCache(cache, core.grid)
      ensures core.lastInserts == prefix + trail[..|trail| - 1] && FilledAlong(base, core.grid, trail[..|trail| - 1])
      ensures HistoryGrows(old(core.history), core.history)
      ensures consistent ==> core.grid.Consistent()
      ensures trail[..|trail| - 1] != [] ==> trail[..|trail| - 1][0] == trail[0]
    {
      ghost var g := core.grid;
      assert core.lastInserts[|core.lastInserts| - 1] == trail[|trail| - 1];
      assert (prefix + trail)[..|prefix + trail| - 1] == prefix + trail[..|trail| - 1];
      RollBack();
      FilledAlongPop(base, g, trail);
    }

    /** `findMostConstrainedCell`: the first empty cell (row after row) without candidates
        when there is one; otherwise an empty cell with the fewest candidates, the first of
        those in the most rules; `None` exactly when no cell is empty. */
    method FindMostConstrainedCell() returns (most: Option<Position>)
      requires core.grid.WellFormed() && Sound() && SmallAlphabets(core.grid)
      modifies this
      ensures Refines(cache, old(cache), core.grid, core.Current())
      ensures Sound() && (old(Coherent()) ==> Coherent())
      ensures MostConstrained(cache, core.grid, core.Current(), most)
    {
      ghost var g, h, c0 := core.grid, core.Current(), cache;
      ghost var coherent := old(Coherent());
      most := None;
      var minPossibilities := Entropies.Infinity;
      var size := core.grid.size;
      var y := 0;
      while y < size.y
        invariant 0 <= y <= size.y
        invariant Refines(cache, c0, g, h) && SoundCache(cache, g) && (coherent ==> CoherentCache(cache, g, h))
        invariant Scan(g, c0, h, y, 0, most, minPossibilities)
      {
        var zero;
        most, minPossibilities, zero := ScanRow(y, g, h, c0, coherent, most, minPossibilities);
        if zero {
          ZeroMost(g, c0, h, cache, most.value);
          return;
        }
        ScanNextRow(g, c0, h, y, most, minPossibilities);
        y := y + 1;
      }
      ScanDone(g, c0, h, y, most, minPossibilities, cache);
    }

    /** One row of the scan of `findMostConstrainedCell`; `zero` reports the early return on a
        cell without candidates, which is then the one returned. */
    method ScanRow(y: int, ghost g: Grid, ghost h: History, ghost c0: Cache, ghost coherent: bool,
                   most: Option<Position>, minPossibilities: int)
      returns (most': Option<Position>, min': int, zero: bool)
      requires core.grid == g && core.Current() == h && g.WellFormed() && SmallAlphabets(g) && SoundCache(c0, g) && 0 <= y
      requires Refines(cache, c0, g, h) && SoundCache(cache, g) && (coherent ==> CoherentCache(cache, g, h))
      requires Scan(g, c0, h, y, 0, most, minPossibilities)
      modifies this
      ensures Refines(cache, c0, g, h) && SoundCache(cache, g) && (coherent ==> CoherentCache(cache, g, h))
      ensures !zero ==> Scan(g, c0, h, y, g.size.x, most', min')
      ensures zero ==> most'.Some? && g.IsEmpty(most'.value) && CandidatesOf(c0, g, h, most'.value) == {} &&
                       forall q | q in g.cells && g.IsEmpty(q) && Before(q, most'.value.y, most'.value.x) :: CandidatesOf(c0, g, h, q) != {}
    {
      most', min', zero := most, minPossibilities, false;
      var x := 0;
      while x < core.grid.size.x
        invariant 0 <= x <= g.size.x
        invariant Refines(cache, c0, g, h) && SoundCache(cache, g) && (coherent ==> CoherentCache(cache, g, h))
        invariant Scan(g, c0, h, y, x, most', min')
      {
        most', min', zero := ScanCell(x, y, g, h, c0, coherent, most', min');
        if zero {
          return;
        }
        x := x + 1;
      }
    }

    /** One cell of the scan of `findMostConstrainedCell`. */
    method ScanCell(x: int, y: int, ghost g: Grid, ghost h: History, ghost c0: Cache, ghost coherent: bool,
                    most: Option<Position>, minPossibilities: int)
      returns (most': Option<Position>, min': int, zero: bool)
      requires core.grid == g && core.Current() == h && g.WellFormed() && SmallAlphabets(g) && SoundCache(c0, g)
      requires Refines(cache, c0, g, h) && SoundCache(cache, g) && (coherent ==> CoherentCache(cache, g, h))
      requires Scan(g, c0, h, y, x, most, minPossibilities)
      modifies this
      ensures Refines(cache, c0, g, h) && SoundCache(cache, g) && (coherent ==> CoherentCache(cache, g, h))
      ensures !zero ==> Scan(g, c0, h, y, x + 1, most', min')
      ensures zero ==> most' == Some(Position(x, y)) && g.IsEmpty(Position(x, y)) && CandidatesOf(c0, g, h, Position(x, y)) == {} &&
                       forall q | q in g.cells && g.IsEmpty(q) && Before(q, y, x) :: CandidatesOf(c0, g, h, q) != {}
    {
      var currentPos := Position(x, y);
      most', min', zero := most, minPossibilities, false;
      if currentPos in core.grid.cells && core.grid.cells[currentPos].symbol.None? {
        var possibilities := Lookup(currentPos, g, h, c0, coherent);
        var numPossibilities := |possibilities|;
        if numPossibilities == 0 {
          ZeroFound(g, c0, h, y, x, most, minPossibilities);
          return Some(currentPos), minPossibilities, true;
        }
        if numPossibilities < minPossibilities {
          ScanTakes(g, c0, h, y, x, most, minPossibilities);
          min' := numPossibilities;
          most' := Some(currentPos);
        } else if numPossibilities == minPossibilities &&
                  |core.grid.cells[currentPos].idRules| > |core.grid.cells[most.value].idRules| {
          ScanTakes(g, c0, h, y, x, most, minPossibilities);
          most' := Some(currentPos);
        } else {
          ScanKeeps(g, c0, h, y, x, most.value, minPossibilities);
        }
      } else {
        ScanSkip(g, c0, h, y, x, most, minPossibilities);
      }
    }

    /** `getPossiblePlaysWithCache` during a scan that started from the cache `c0`: the
        answer is what `c0` would have given. */
    method Lookup(pos: Position, ghost g: Grid, ghost h: History, ghost c0: Cache, ghost coherent: bool)
      returns (plays: set<Symbol>)
      requires core.grid == g && core.Current() == h && SoundCache(c0, g)
      requires Refines(cache, c0, g, h) && SoundCache(cache, g) && (coherent ==> CoherentCache(cache, g, h))
      modifies this
      ensures Refines(cache, c0, g, h) && SoundCache(cache, g) && (coherent ==> CoherentCache(cache, g, h))
      ensures plays == CandidatesOf(c0, g, h, pos)
      ensures g.WellFormed() && SmallAlphabets(g) ==> |plays| < Entropies.Infinity
    {
      ghost var c1 := cache;
      plays := GetPossiblePlaysWithCache(pos);
      RefinesTransitive(cache, c1, c0, g, h);
      RefinesAnswers(c1, c0, g, h, pos);
      CandidatesSound(c0, g, h, pos);
    }

    /** `validateAndPropagate(p)`: forward-checks `p`, then fills each hidden single found
        around it that still has exactly one candidate, propagating from it in turn. Only
        cells that were empty are filled, each pushed once, and nothing is undone. */
    method ValidateAndPropagate(currentPos: Position) returns (ok: bool, ghost added: seq<Position>)
      requires core.grid.WellFormed() && Sound()
      modifies this, core
      decreases core.grid.EmptyCount(), 2
      ensures core.grid.WellFormed() && Sound()
      ensures core.lastInserts == old(core.lastInserts) + added && FilledAlong(old(core.grid), core.grid, added)
      ensures core.history == old(core.history)
      ensures old(core.grid).Consistent() ==> core.grid.Consistent()
      ensures ok ==> NoWipeout(old(cache), old(core.grid), old(core.Current()), currentPos)
    {
      ghost var consistent := old(core.grid).Consistent();
      var valid := IsForwardCheckValid(currentPos);
      if !valid {
        FilledAlongStart(core.grid);
        assert core.lastInserts == old(core.lastInserts) + [];
        return false, [];
      }
      var hiddenSinglesPositions := FindHiddenSingles(currentPos);
      ok, added := PropagateSingles(hiddenSinglesPositions, consistent);
    }

    /** The hidden-singles loop of `validateAndPropagate`: each position in turn, stopping at
        the first whose propagation fails. */
    method PropagateSingles(hiddenSinglesPositions: set<Position>, ghost consistent: bool)
      returns (ok: bool, ghost added: seq<Position>)
      requires core.grid.WellFormed() && SoundCache(cache, core.grid)
      requires consistent ==> core.grid.Consistent()
      modifies this, core
      decreases core.grid.EmptyCount(), 1
      ensures core.grid.WellFormed() && SoundCache(cache, core.grid)
      ensures core.lastInserts == old(core.lastInserts) + added && FilledAlong(old(core.grid), core.grid, added)
      ensures core.history == old(core.history)
      ensures consistent ==> core.grid.Consistent()
    {
      ghost var g0 := core.grid;
      FilledAlongStart(g0);
      var remaining := hiddenSinglesPositions;
      added := [];
      while remaining != {}
        invariant core.grid.WellFormed() && SoundCache(cache, core.grid)
        invariant core.lastInserts == old(core.lastInserts) + added && FilledAlong(g0, core.grid, added)
        invariant core.history == old(core.history)
        invariant core.grid.EmptyCount() <= g0.EmptyCount()
        invariant consistent ==> core.grid.Consistent()
        decreases |remaining|
      {
        var pos :| pos in remaining;
        remaining := remaining - {pos};
        ghost var g1 := core.grid;
        var propagated, more := PropagateSingle(pos, consistent);
        FilledAlongConcat(g0, g1, core.grid, added, more);
        AppendAssociative(old(core.lastInserts), added, more);
        added := added + more;
        if !propagated {
          return false, added;
        }
      }
      return true, added;
    }

    /** One pass of the hidden-singles loop of `validateAndPropagate`: nothing when `pos` no
        longer has exactly one candidate; otherwise that candidate is placed and propagated. */
    method PropagateSingle(pos: Position, ghost consistent: bool) returns (ok: bool, ghost added: seq<Position>)
      requires core.grid.WellFormed() && SoundCache(cache, core.grid)
      requires consistent ==> core.grid.Consistent()
      modifies this, core
      decreases core.grid.EmptyCount(), 0
      ensures core.grid.WellFormed() && SoundCache(cache, core.grid)
      ensures core.lastInserts == old(core.lastInserts) + added && FilledAlong(old(core.grid), core.grid, added)
      ensures core.history == old(core.history)
      ensures core.grid.EmptyCount() <= old(core.grid.EmptyCount())
      ensures consistent ==> core.grid.Consistent()
    {
      ghost var g0 := core.grid;
      FilledAlongStart(g0);
      ghost var c := cache;
      var possibleValues := GetPossiblePlaysWithCache(pos);
      if |possibleValues| != 1 {
        assert core.lastInserts == old(core.lastInserts) + [];
        return true, [];
      }
      var value :| value in possibleValues;
      CandidatesSound(c, g0, core.Current(), pos);
      PlaysIffLegal(g0, value, pos);
      InsertFillsOne(g0, value, pos);
      FilledAlongPush(g0, g0, [], value, pos);
      assert [] + [pos] == [pos];
      Place(value, pos);
      ghost var g1 := core.grid;
      assert FilledAlong(g0, g1, [pos]);
      ghost var more;
      ok, more := ValidateAndPropagate(pos);
      FilledAlongConcat(g0, g1, core.grid, [pos], more);
      FilledAlongExtends(g1, core.grid, more);
      ExtendsFewerEmpty(core.grid, g1);
      added := [pos] + more;
      assert core.lastInserts == old(core.lastInserts) + added by {
        AppendAssociative(old(core.lastInserts), [pos], more);
      }
    }

    /** `findHiddenSingles(p)`: exactly the other empty cells sharing a rule with `p` that
        have a single candidate. */
    method FindHiddenSingles(currentPos: Position) returns (hiddenSinglesPositions: set<Position>)
      requires core.grid.WellFormed() && Sound()
      modifies this
      ensures Refines(cache, old(cache), core.grid, core.Current())
      ensures Sound() && (old(Coherent()) ==> Coherent())
      ensures hiddenSinglesPositions == set q | q in Neighbours(core.grid, currentPos) && |CandidatesOf(old(cache), core.grid, core.Current(), q)| == 1
    {
      ghost var g, h, c0 := core.grid, core.Current(), cache;
      hiddenSinglesPositions := {};
      var ids := core.grid.RuleIds(currentPos);
      var i := 0;
      while i < |ids|
        invariant 0 <= i <= |ids|
        invariant Refines(cache, c0, g, h) && SoundCache(cache, g) && (old(Coherent()) ==> CoherentCache(cache, g, h))
        invariant hiddenSinglesPositions == SinglesIn(c0, g, h, currentPos, RelatedBy(g, ids[..i]))
      {
        hiddenSinglesPositions := SinglesInRule(currentPos, core.grid.RulePositions(ids[i]), g, h, c0, RelatedBy(g, ids[..i]), hiddenSinglesPositions, old(Coherent()));
        RelatedByPrefix(g, ids, i);
        i := i + 1;
      }
      assert ids[..|ids|] == ids;
      SinglesInRelated(c0, g, h, currentPos);
    }

    /** The inner loop of `findHiddenSingles`: the cells of one rule, added to the singles
        found in the cells `seen` so far. */
    method SinglesInRule(currentPos: Position, rulePositions: set<Position>, ghost g: Grid, ghost h: History,
                         ghost c0: Cache, ghost seen: set<Position>, found: set<Position>, ghost coherent: bool)
      returns (singles: set<Position>)
      requires core.grid == g && core.Current() == h && g.WellFormed()
      requires Refines(cache, c0, g, h) && SoundCache(cache, g) && (coherent ==> CoherentCache(cache, g, h))
      requires found == SinglesIn(c0, g, h, currentPos, seen)
      modifies this
      ensures Refines(cache, c0, g, h) && SoundCache(cache, g) && (coherent ==> CoherentCache(cache, g, h))
      ensures singles == SinglesIn(c0, g, h, currentPos, seen + rulePositions)
    {
      singles := found;
      var remaining := rulePositions;
      while remaining != {}
        invariant remaining <= rulePositions
        invariant Refines(cache, c0, g, h) && SoundCache(cache, g) && (coherent ==> CoherentCache(cache, g, h))
        invariant singles == SinglesIn(c0, g, h, currentPos, seen + (rulePositions - remaining))
        decreases |remaining|
      {
        var pos :| pos in remaining;
        ghost var done := seen + (rulePositions - remaining);
        remaining := remaining - {pos};
        assert seen + (rulePositions - remaining) == done + {pos};
        SinglesInStep(c0, g, h, currentPos, done, pos);
        ghost var before := singles;
        ghost var single := pos != currentPos && g.IsEmpty(pos) && |CandidatesOf(c0, g, h, pos)| == 1;
        if pos != currentPos && core.grid.IsEmpty(pos) {
          var possibleValues := Lookup(pos, g, h, c0, coherent);
          if |possibleValues| == 1 {
            singles := singles + {pos};
          }
        }
        assert singles == before + (if single then {pos} else {});
      }
      assert rulePositions - remaining == rulePositions;
    }

    /** `isForwardCheckValid(p)`: fails exactly when some other empty cell sharing a rule
        with `p` has no candidate left. */
    method IsForwardCheckValid(currentPos: Position) returns (valid: bool)
      requires core.grid.WellFormed() && Sound()
      modifies this
      ensures Refines(cache, old(cache), core.grid, core.Current())
      ensures Sound() && (old(Coherent()) ==> Coherent())
      ensures valid <==> NoWipeout(old(cache), core.grid, core.Current(), currentPos)
    {
      ghost var g, h, c0, coherent := core.grid, core.Current(), cache, old(Coherent());
      var ids := core.grid.RuleIds(currentPos);
      var i := 0;
      while i < |ids|
        invariant 0 <= i <= |ids|
        invariant Refines(cache, c0, g, h) && SoundCache(cache, g) && (coherent ==> CoherentCache(cache, g, h))
        invariant AllHaveCandidates(c0, g, h, currentPos, RelatedBy(g, ids[..i]))
      {
        var ruleValid;
        ghost var culprit;
        ruleValid, culprit := CandidatesInRule(currentPos, core.grid.RulePositions(ids[i]), g, h, c0, RelatedBy(g, ids[..i]), coherent);
        if !ruleValid {
          WipeoutAt(c0, g, h, currentPos, i, culprit);
          return false;
        }
        RelatedByPrefix(g, ids, i);
        i := i + 1;
      }
      assert ids[..|ids|] == ids;
      return true;
    }

    /** The inner loop of `isForwardCheckValid`: the cells of one rule, the check failing at
        the first other empty cell without candidates, which `culprit` names. */
    method CandidatesInRule(currentPos: Position, rulePositions: set<Position>, ghost g: Grid, ghost h: History,
                            ghost c0: Cache, ghost seen: set<Position>, ghost coherent: bool)
      returns (valid: bool, ghost culprit: Position)
      requires core.grid == g && core.Current() == h && g.WellFormed()
      requires Refines(cache, c0, g, h) && SoundCache(cache, g) && (coherent ==> CoherentCache(cache, g, h))
      requires AllHaveCandidates(c0, g, h, currentPos, seen)
      modifies this
      ensures Refines(cache, c0, g, h) && SoundCache(cache, g) && (coherent ==> CoherentCache(cache, g, h))
      ensures valid ==> AllHaveCandidates(c0, g, h, currentPos, seen + rulePositions)
      ensures !valid ==> culprit in rulePositions && culprit != currentPos && g.IsEmpty(culprit) && CandidatesOf(c0, g, h, culprit) == {}
    {
      var remaining := rulePositions;
      while remaining != {}
        invariant remaining <= rulePositions
        invariant Refines(cache, c0, g, h) && SoundCache(cache, g) && (coherent ==> CoherentCache(cache, g, h))
        invariant AllHaveCandidates(c0, g, h, currentPos, seen + (rulePositions - remaining))
        decreases |remaining|
      {
        var pos :| pos in remaining;
        ghost var done := seen + (rulePositions - remaining);
        remaining := remaining - {pos};
        assert seen + (rulePositions - remaining) == done + {pos};
        if pos != currentPos && core.grid.IsEmpty(pos) {
          var possibleValuesOtherCells := Lookup(pos, g, h, c0, coherent);
          if possibleValuesOtherCells == {} {
            return false, pos;
          }
        }
      }
      assert rulePositions - remaining == rulePositions;
      return true, currentPos;
    }

    /** `rollBack`, overridden: the base roll-back (pop, clear, record) followed by the
        invalidation of the popped cell and its related cells. */
    method RollBack()
      requires core.grid.WellFormed()
      modifies this, core
      ensures old(core.lastInserts) == [] ==>
                core.grid == old(core.grid) && core.lastInserts == [] && core.history == old(core.history) && cache == old(cache)
      ensures old(core.lastInserts) != [] ==>
                var p := old(core.lastInserts)[|old(core.lastInserts)| - 1];
                core.lastInserts == old(core.lastInserts)[..|old(core.lastInserts)| - 1] &&
                core.grid == old(core.grid).Reset(p) &&
                (var k := core.hash(old(core.grid).Reset(p).Fill());
                 var h := StateHistory(old(core.history), k);
                 core.history == old(core.history)[k := h[p := Tried(h, p) + {old(core.grid).SymbolAt(p)}]]) &&
                cache == Invalidated(old(cache), old(core.grid), p)
      ensures core.grid.WellFormed() && HistoryGrows(old(core.history), core.history)
      ensures SoundCache(old(cache), old(core.grid)) ==> SoundCache(cache, core.grid)
      ensures CoherentCache(old(cache), old(core.grid), old(core.Current())) ==> CoherentCache(cache, core.grid, old(core.Current()))
      ensures old(core.grid).Consistent() ==> core.grid.Consistent()
    {
      if core.lastInserts == [] {
        return;
      }
      var p := core.lastInserts[|core.lastInserts| - 1];
      ghost var g, h, c := core.grid, core.Current(), cache;
      core.RollBack();
      InvalidateCache(p);
      InvalidatedShape(c, g, core.grid, p);
      ShapeKeepsWellFormed(g, core.grid);
      if g.Consistent() {
        ResetKeepsConsistent(g, p);
      }
      if p in g.cells && g.cells[p].symbol.Some? {
        ResetChanges(g, p);
        InvalidatedKeeps(c, g, h, core.grid, h, p, g.cells[p].symbol.value);
      } else {
        ResetOfEmpty(g, p);
        InvalidatedKeeps(c, g, h, core.grid, h, p, "");
      }
    }

    /** `insertSymbol(value, pos)` followed by `invalidateCache(pos)`, as the search does. */
    method Place(value: Symbol, pos: Position)
      requires core.grid.WellFormed()
      modifies this, core
      ensures core.grid == old(core.grid).Insert(value, pos)
      ensures core.lastInserts == old(core.lastInserts) + [pos] && core.history == old(core.history)
      ensures cache == Invalidated(old(cache), old(core.grid), pos)
      ensures core.grid.WellFormed()
      ensures SoundCache(old(cache), old(core.grid)) ==> SoundCache(cache, core.grid)
      ensures CoherentCache(old(cache), old(core.grid), old(core.Current())) ==> CoherentCache(cache, core.grid, old(core.Current()))
      ensures old(core.grid).Consistent() ==> core.grid.Consistent()
    {
      ghost var g, h, c := core.grid, core.Current(), cache;
      core.InsertSymbol(value, pos);
      InvalidateCache(pos);
      InvalidatedShape(c, g, core.grid, pos);
      ShapeKeepsWellFormed(g, core.grid);
      if g.Consistent() {
        InsertKeepsConsistent(g, value, pos);
      }
      if g.Legal(value, pos) {
        InsertChanges(g, value, pos);
      }
      InvalidatedKeeps(c, g, h, core.grid, h, pos, value);
    }

    /** `getPossiblePlaysWithCache(pos)`: the cached set, or the solver's candidates, which
        are then cached. */
    method GetPossiblePlaysWithCache(pos: Position) returns (plays: set<Symbol>)
      modifies this
      ensures plays == CandidatesOf(old(cache), core.grid, core.Current(), pos)
      ensures cache == if pos in old(cache) then old(cache) else old(cache)[pos := plays]
      ensures Refines(cache, old(cache), core.grid, core.Current())
      ensures SoundCache(old(cache), core.grid) ==> SoundCache(cache, core.grid)
      ensures CoherentCache(old(cache), core.grid, core.Current()) ==> CoherentCache(cache, core.grid, core.Current())
    {
      FetchRefines(cache, core.grid, core.Current(), pos);
      if pos in cache {
        plays := cache[pos];
      } else {
        plays := core.PossiblePlays(pos);
        cache := cache[pos := plays];
      }
    }

    /** `invalidateCache(pos)`: drops the entry of `pos` and of every position of every rule
        of `pos`; every other entry stays. */
    method InvalidateCache(pos: Position)
      modifies this
      ensures cache == Invalidated(old(cache), core.grid, pos)
    {
      cache := cache - {pos};
      var invalidatedPositions: set<Position> := {};
      var ids := core.grid.RuleIds(pos);
      var i := 0;
      while i < |ids|
        invariant 0 <= i <= |ids|
        invariant cache == old(cache) - {pos}
        invariant invalidatedPositions == RelatedBy(core.grid, ids[..i])
      {
        assert ids[..i + 1][..i] == ids[..i];
        invalidatedPositions := invalidatedPositions + core.grid.RulePositions(ids[i]);
        i := i + 1;
      }
      assert ids[..|ids|] == ids;
      cache := cache - invalidatedPositions;
    }
  }

  /** No other empty cell sharing a rule with `p` is left without candidates. */
  ghost predicate NoWipeout(c: Cache, g: Grid, h: History, p: Position) {
    forall q | q in Neighbours(g, p) :: CandidatesOf(c, g, h, q) != {}
  }

  /** No other empty cell of `seen` is left without candidates. */
  ghost predicate AllHaveCandidates(c: Cache, g: Grid, h: History, p: Position, seen: set<Position>) {
    forall q | q in seen && q != p && g.IsEmpty(q) :: CandidatesOf(c, g, h, q) != {}
  }

  /** The other empty cells of `seen` with a single candidate. */
  function SinglesIn(c: Cache, g: Grid, h: History, p: Position, seen: set<Position>): set<Position> {
    set q | q in seen && q != p && g.IsEmpty(q) && |CandidatesOf(c, g, h, q)| == 1
  }

  lemma SinglesInStep(c: Cache, g: Grid, h: History, p: Position, seen: set<Position>, q: Position)
    ensures SinglesIn(c, g, h, p, seen + {q}) ==
            SinglesIn(c, g, h, p, seen) + (if q != p && g.IsEmpty(q) && |CandidatesOf(c, g, h, q)| == 1 then {q} else {})
  {
  }

  /** Looking at the rules one after another covers the cells related to `p`. */
  lemma SinglesInRelated(c: Cache, g: Grid, h: History, p: Position)
    ensures SinglesIn(c, g, h, p, RelatedBy(g, g.RuleIds(p))) ==
            set q | q in Neighbours(g, p) && |CandidatesOf(c, g, h, q)| == 1
  {
  }

  /** The cells of the first `i + 1` rules are those of the first `i` and those of rule `i`. */
  lemma RelatedByPrefix(g: Grid, ids: seq<int>, i: int)
    requires 0 <= i < |ids|
    ensures RelatedBy(g, ids[..i + 1]) == RelatedBy(g, ids[..i]) + g.RulePositions(ids[i])
  {
    assert ids[..i + 1][..i] == ids[..i];
  }

  /** An empty cell without candidates in a rule of `p` fails the forward check. */
  lemma WipeoutAt(c: Cache, g: Grid, h: History, p: Position, i: int, q: Position)
    requires 0 <= i < |g.RuleIds(p)| && q in g.RulePositions(g.RuleIds(p)[i])
    requires q != p && g.IsEmpty(q) && CandidatesOf(c, g, h, q) == {}
    ensures !NoWipeout(c, g, h, p)
  {
    RelatedByMembers(g, g.RuleIds(p), q);
    assert q in Neighbours(g, p);
  }

  /** What `findMostConstrainedCell` returns: `None` exactly when no cell is empty; otherwise
      an empty cell, which is the first empty cell (row after row) without candidates when
      there is one, and else an empty cell with the fewest candidates, in the most rules among
      those and the first of those. */
  ghost predicate MostConstrained(c: Cache, g: Grid, h: History, most: Option<Position>) {
    (most.None? <==> g.IsComplete()) &&
    (most.Some? ==> g.IsEmpty(most.value)) &&
    (most.Some? && CandidatesOf(c, g, h, most.value) == {} ==>
       forall q | q in g.cells && g.IsEmpty(q) && Before(q, most.value.y, most.value.x) :: CandidatesOf(c, g, h, q) != {}) &&
    ((exists q :: g.IsEmpty(q) && CandidatesOf(c, g, h, q) == {}) ==>
       most.Some? && CandidatesOf(c, g, h, most.value) == {}) &&
    (most.Some? && CandidatesOf(c, g, h, most.value) != {} ==>
       forall q | q in g.cells && g.IsEmpty(q) ::
         |CandidatesOf(c, g, h, most.value)| <= |CandidatesOf(c, g, h, q)| &&
         (|CandidatesOf(c, g, h, q)| == |CandidatesOf(c, g, h, most.value)| ==>
            |g.cells[q].idRules| <= |g.cells[most.value].idRules| &&
            (Before(q, most.value.y, most.value.x) ==> |g.cells[q].idRules| < |g.cells[most.value].idRules|)))
  }

  /** The early return on a cell without candidates meets the specification. */
  lemma ZeroMost(g: Grid, c0: Cache, h: History, c: Cache, m: Position)
    requires Refines(c, c0, g, h) && g.IsEmpty(m) && CandidatesOf(c0, g, h, m) == {}
    requires forall q | q in g.cells && g.IsEmpty(q) && Before(q, m.y, m.x) :: CandidatesOf(c0, g, h, q) != {}
    ensures MostConstrained(c, g, h, Some(m))
  {
    CandidatesPostZero(g, c0, h, c, m);
  }

  /** The state of the scan of `findMostConstrainedCell` once every cell before row `y`,
      column `x` has been looked at: none of the empty ones lacks candidates, `min` bounds all
      their counts, and `most` is the first of the fewest-candidate cells in the most rules. */
  ghost predicate Scan(g: Grid, c: Cache, h: History, y: int, x: int, most: Option<Position>, min: int) {
    (forall q | q in g.cells && Before(q, y, x) && g.IsEmpty(q) ::
       0 < |CandidatesOf(c, g, h, q)| && min <= |CandidatesOf(c, g, h, q)|) &&
    (most.None? ==> min == Entropies.Infinity && forall q | q in g.cells && Before(q, y, x) :: !g.IsEmpty(q)) &&
    (most.Some? ==> Leader(g, c, h, y, x, most.value) && min == |CandidatesOf(c, g, h, most.value)|)
  }

  ghost predicate Leader(g: Grid, c: Cache, h: History, y: int, x: int, m: Position) {
    g.IsEmpty(m) && Before(m, y, x) &&
    forall q | q in g.cells && Before(q, y, x) && g.IsEmpty(q) && |CandidatesOf(c, g, h, q)| == |CandidatesOf(c, g, h, m)| ::
      |g.cells[q].idRules| <= |g.cells[m].idRules| && (Before(q, m.y, m.x) ==> |g.cells[q].idRules| < |g.cells[m].idRules|)
  }

  /** The cell looked at becomes the leader: it has fewer candidates than any before it, or as
      few and more rules. */
  lemma ScanTakes(g: Grid, c: Cache, h: History, y: int, x: int, most: Option<Position>, min: int)
    requires g.IsEmpty(Position(x, y)) && Scan(g, c, h, y, x, most, min)
    requires var n := |CandidatesOf(c, g, h, Position(x, y))|;
             0 < n < Entropies.Infinity &&
             (n < min || (most.Some? && n == min && |g.cells[Position(x, y)].idRules| > |g.cells[most.value].idRules|))
    ensures Scan(g, c, h, y, x + 1, Some(Position(x, y)), |CandidatesOf(c, g, h, Position(x, y))|)
  {
    var p := Position(x, y);
    BeforeStep(g, y, x);
    var n := |CandidatesOf(c, g, h, p)|;
    forall q | q in g.cells && Before(q, y, x) && g.IsEmpty(q) && |CandidatesOf(c, g, h, q)| == n
      ensures |g.cells[q].idRules| < |g.cells[p].idRules|
    {
      assert most.Some? && Leader(g, c, h, y, x, most.value);
    }
  }

  /** The leader stays: the cell looked at has more candidates, or as many and no more rules. */
  lemma ScanKeeps(g: Grid, c: Cache, h: History, y: int, x: int, m: Position, min: int)
    requires g.IsEmpty(Position(x, y)) && Scan(g, c, h, y, x, Some(m), min)
    requires var n := |CandidatesOf(c, g, h, Position(x, y))|;
             0 < n && min <= n && (n == min ==> |g.cells[Position(x, y)].idRules| <= |g.cells[m].idRules|)
    ensures Scan(g, c, h, y, x + 1, Some(m), min)
  {
    BeforeStep(g, y, x);
  }

  /** The cells before the one after `(x, y)` are those before it and the cell itself. */
  lemma BeforeStep(g: Grid, y: int, x: int)
    ensures forall q | q in g.cells :: Before(q, y, x + 1) <==> Before(q, y, x) || q == Position(x, y)
  {
  }

  /** Passing an absent or filled cell moves the scan on by one cell. */
  lemma ScanSkip(g: Grid, c: Cache, h: History, y: int, x: int, most: Option<Position>, min: int)
    requires !g.IsEmpty(Position(x, y)) && Scan(g, c, h, y, x, most, min)
    ensures Scan(g, c, h, y, x + 1, most, min)
  {
  }

  /** The end of a row is the start of the next. */
  lemma ScanNextRow(g: Grid, c: Cache, h: History, y: int, most: Option<Position>, min: int)
    requires g.WellFormed() && Scan(g, c, h, y, g.size.x, most, min)
    ensures Scan(g, c, h, y + 1, 0, most, min)
  {
    forall q | q in g.cells
      ensures Before(q, y, g.size.x) <==> Before(q, y + 1, 0)
    {
    }
  }

  /** A cell without candidates found while scanning is the first such cell. */
  lemma ZeroFound(g: Grid, c: Cache, h: History, y: int, x: int, most: Option<Position>, min: int)
    requires Scan(g, c, h, y, x, most, min)
    ensures forall q | q in g.cells && g.IsEmpty(q) && Before(q, y, x) :: CandidatesOf(c, g, h, q) != {}
  {
  }

  lemma CandidatesPostZero(g: Grid, c0: Cache, h: History, c: Cache, p: Position)
    requires Refines(c, c0, g, h)
    ensures forall q :: CandidatesOf(c, g, h, q) == CandidatesOf(c0, g, h, q)
  {
    forall q
      ensures CandidatesOf(c, g, h, q) == CandidatesOf(c0, g, h, q)
    {
      RefinesAnswers(c, c0, g, h, q);
    }
  }

  /** At the end of the scan every cell has been looked at. */
  lemma ScanDone(g: Grid, c0: Cache, h: History, y: int, most: Option<Position>, min: int, c: Cache)
    requires g.WellFormed() && y >= g.size.y && Scan(g, c0, h, y, 0, most, min) && Refines(c, c0, g, h)
    ensures MostConstrained(c, g, h, most)
  {
    CandidatesPostZero(g, c0, h, c, Position(0, 0));
    assert forall q | q in g.cells :: Before(q, y, 0);
  }
}
