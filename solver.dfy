/**
 * The bookkeeping every solver shares (`solvers.Solver`): the grid being solved, the stack
 * of inserted positions (`lastInserts`) and, per grid state and position, the symbols
 * rolled back there (`historyInserts`). The outer map of the history is a `HashMap` keyed
 * by the grid object itself, which the solver changes in place; such a map finds an entry
 * only while the grid's hash code is the one it had when the entry was put. The history
 * is therefore indexed by the hash code of the grid's contents, through the same
 * `hashCode` the solution count uses.
 */
module Solvers {
  import opened Wrappers
  import opened Lists
  import opened Positions
  import opened Cells
  import opened Grids

  /** The symbols tried at each position; `None` stands for the Java `null` that is recorded
      when the rolled-back cell holds nothing. */
  type History = map<Position, set<Option<Symbol>>>

  /** The histories of all grid states, by the hash code of the state. */
  type Histories = map<int, History>

  /** The history recorded under hash code `k`, empty when nothing was recorded. */
  function StateHistory(histories: Histories, k: int): History {
    if k in histories then histories[k] else map[]
  }

  /** Every symbol recorded in `a`, under any state and at any position, is still recorded
      in `b`. */
  predicate HistoryGrows(a: Histories, b: Histories) {
    forall k, q | k in a && q in a[k] :: k in b && q in b[k] && a[k][q] <= b[k][q]
  }

  lemma HistoryGrowsTransitive(a: Histories, b: Histories, c: Histories)
    requires HistoryGrows(a, b) && HistoryGrows(b, c)
    ensures HistoryGrows(a, c)
  {
  }

  /** A history that grows never forgets a tried symbol. */
  lemma HistoryGrowsTried(a: Histories, b: Histories, k: int, q: Position)
    requires HistoryGrows(a, b)
    ensures Tried(StateHistory(a, k), q) <= Tried(StateHistory(b, k), q)
  {
  }

  /** The symbols recorded at `p`, none when nothing was recorded. */
  function Tried(history: History, p: Position): set<Option<Symbol>> {
    if p in history then history[p] else {}
  }

  /** The grid's possible plays at `p` without the symbols already tried there. */
  function FilteredPlays(g: Grid, tried: set<Option<Symbol>>, p: Position): set<Symbol> {
    set s | s in g.PossiblePlays(p) && Some(s) !in tried
  }

  /** Wrapping symbols into `Some` is injective, so it keeps the number of elements. */
  lemma {:induction false} SomeImageSize(xs: set<Symbol>)
    ensures |set s | s in xs :: Some(s)| == |xs|
    decreases |xs|
  {
    if xs != {} {
      var x :| x in xs;
      var rest := xs - {x};
      SomeImageSize(rest);
      assert (set s | s in xs :: Some(s)) == (set s | s in rest :: Some(s)) + {Some(x)};
    }
  }

  /** Filtering by the history only removes symbols, at most one per recorded entry, and an
      empty history removes nothing. */
  lemma FilteredPlaysBounds(g: Grid, tried: set<Option<Symbol>>, p: Position)
    ensures FilteredPlays(g, tried, p) <= g.PossiblePlays(p)
    ensures |FilteredPlays(g, tried, p)| >= |g.PossiblePlays(p)| - |tried|
    ensures tried == {} ==> FilteredPlays(g, tried, p) == g.PossiblePlays(p)
  {
    var plays := g.PossiblePlays(p);
    assert FilteredPlays(g, tried, p) == Unfiltered(plays, tried);
    UnfilteredBound(plays, tried);
  }

  function Unfiltered(plays: set<Symbol>, tried: set<Option<Symbol>>): set<Symbol> {
    set s | s in plays && Some(s) !in tried
  }

  lemma UnfilteredBound(plays: set<Symbol>, tried: set<Option<Symbol>>)
    ensures Unfiltered(plays, tried) <= plays
    ensures |Unfiltered(plays, tried)| >= |plays| - |tried|
    ensures tried == {} ==> Unfiltered(plays, tried) == plays
  {
    var kept := Unfiltered(plays, tried);
    var dropped := set s | s in plays && Some(s) in tried;
    assert plays == kept + dropped;
    assert kept * dropped == {};
    assert |plays| == |kept| + |dropped|;
    SomeImageSize(dropped);
    var image := set s | s in dropped :: Some(s);
    assert image <= tried;
    SubsetCard(image, tried);
  }

  lemma SubsetCard<T>(a: set<T>, b: set<T>)
    requires a <= b
    ensures |a| <= |b|
  {
    assert b == a + (b - a);
  }

  /** `grid` is `base` with the cells listed in `trail` filled: each was empty in `base`, has a
      rule, appears once and now holds a symbol of the alphabet of each of its rules; every
      other cell is as in `base`. */
  predicate FilledAlong(base: Grid, grid: Grid, trail: seq<Position>) {
    SameShape(base, grid) && Distinct(trail) &&
    (forall i | 0 <= i < |trail| ::
       trail[i] in base.cells && base.cells[trail[i]].symbol.None? && |base.cells[trail[i]].idRules| > 0 &&
       grid.cells[trail[i]].symbol.Some? &&
       forall r | 0 <= r < |grid.rules| && trail[i] in grid.rules[r].positions ::
         grid.cells[trail[i]].symbol.value in grid.Alphabet(r)) &&
    (forall p | p in base.cells && p !in trail :: grid.cells[p] == base.cells[p])
  }

  lemma FilledAlongStart(g: Grid)
    ensures FilledAlong(g, g, [])
  {
  }

  /** A grid filled along an empty trail is the base grid itself. */
  lemma FilledAlongNil(base: Grid, g: Grid)
    requires FilledAlong(base, g, [])
    ensures g == base
  {
    assert g.cells == base.cells;
  }

  /** A grid filled along a trail extends the base grid. */
  lemma FilledAlongExtends(base: Grid, g: Grid, trail: seq<Position>)
    requires FilledAlong(base, g, trail)
    ensures Extends(g, base)
  {
    forall p | p in base.cells && base.cells[p].symbol.Some?
      ensures g.cells[p].symbol == base.cells[p].symbol
    {
      assert p !in trail by {
        forall i | 0 <= i < |trail|
          ensures trail[i] != p
        {
          assert base.cells[trail[i]].symbol.None?;
        }
      }
    }
  }

  /** Inserting a possible play pushes the cell onto the trail. */
  lemma FilledAlongPush(base: Grid, g: Grid, trail: seq<Position>, s: Symbol, p: Position)
    requires g.WellFormed() && FilledAlong(base, g, trail)
    requires s in g.PossiblePlays(p)
    ensures FilledAlong(base, g.Insert(s, p), trail + [p])
  {
    PlaysIffLegal(g, s, p);
    var h := g.Insert(s, p);
    var t := trail + [p];
    assert p !in trail by {
      forall i | 0 <= i < |trail|
        ensures trail[i] != p
      {
        assert g.cells[trail[i]].symbol.Some?;
      }
    }
    assert g.cells[p] == base.cells[p];
    assert h.cells[p].symbol == Some(s);
    forall i | 0 <= i < |t|
      ensures t[i] in base.cells && base.cells[t[i]].symbol.None? && |base.cells[t[i]].idRules| > 0
      ensures h.cells[t[i]].symbol.Some?
      ensures forall r | 0 <= r < |h.rules| && t[i] in h.rules[r].positions :: h.cells[t[i]].symbol.value in h.Alphabet(r)
    {
      if i < |trail| {
        assert t[i] == trail[i] && t[i] != p;
        assert h.cells[t[i]] == g.cells[t[i]];
      } else {
        assert t[i] == p;
      }
    }
    assert Distinct(t) by {
      forall i, j | 0 <= i < j < |t|
        ensures t[i] != t[j]
      {
        if j < |trail| {
          assert t[i] == trail[i] && t[j] == trail[j];
        } else {
          assert t[i] == trail[i];
        }
      }
    }
    forall q | q in base.cells && q !in t
      ensures h.cells[q] == base.cells[q]
    {
      assert q !in trail && q != p;
    }
  }

  /** Clearing the last cell of the trail pops it. */
  lemma FilledAlongPop(base: Grid, g: Grid, trail: seq<Position>)
    requires FilledAlong(base, g, trail) && trail != []
    ensures FilledAlong(base, g.Reset(trail[|trail| - 1]), trail[..|trail| - 1])
  {
    var p := trail[|trail| - 1];
    var h := g.Reset(p);
    var t := trail[..|trail| - 1];
    assert p !in t by {
      forall i | 0 <= i < |t|
        ensures t[i] != p
      {
        assert t[i] == trail[i];
      }
    }
    forall i | 0 <= i < |t|
      ensures h.cells[t[i]].symbol.Some?
    {
      assert t[i] == trail[i] && t[i] != p;
    }
    forall q | q in base.cells && q !in t
      ensures h.cells[q] == base.cells[q]
    {
      if q == p {
        assert h.cells[q] == base.cells[q];
      } else {
        assert q !in trail;
      }
    }
  }

  /** One trail after another is one trail. */
  lemma FilledAlongConcat(a: Grid, b: Grid, c: Grid, t1: seq<Position>, t2: seq<Position>)
    requires FilledAlong(a, b, t1) && FilledAlong(b, c, t2)
    ensures FilledAlong(a, c, t1 + t2)
  {
    var t := t1 + t2;
    forall i | 0 <= i < |t|
      ensures t[i] in a.cells && a.cells[t[i]].symbol.None? && |a.cells[t[i]].idRules| > 0
      ensures c.cells[t[i]].symbol.Some?
    {
      if i < |t1| {
        assert t[i] == t1[i];
        assert t[i] !in t2 by {
          forall j | 0 <= j < |t2|
            ensures t2[j] != t[i]
          {
            assert b.cells[t2[j]].symbol.None?;
          }
        }
      } else {
        assert t[i] == t2[i - |t1|];
        assert t[i] !in t1 by {
          forall j | 0 <= j < |t1|
            ensures t1[j] != t[i]
          {
            assert b.cells[t1[j]].symbol.Some?;
          }
        }
      }
    }
    assert Distinct(t) by {
      forall i, j | 0 <= i < j < |t|
        ensures t[i] != t[j]
      {
        if j < |t1| {
          assert t[i] == t1[i] && t[j] == t1[j];
        } else if i >= |t1| {
          assert t[i] == t2[i - |t1|] && t[j] == t2[j - |t1|];
        } else {
          assert t[i] == t1[i] && t[j] == t2[j - |t1|];
          assert b.cells[t[i]].symbol.Some?;
        }
      }
    }
    forall q | q in a.cells && q !in t
      ensures c.cells[q] == a.cells[q]
    {
      assert q !in t1 && q !in t2;
    }
  }

  class Solver {
    /** The grid's `hashCode`, a function of what its cells hold. */
    const hash: Fill -> int
    var grid: Grid
    var lastInserts: seq<Position>
    var history: Histories

    constructor (grid: Grid, hash: Fill -> int)
      ensures this.grid == grid && this.hash == hash && lastInserts == [] && history == map[]
    {
      this.hash := hash;
      this.grid := grid;
      lastInserts := [];
      history := map[];
    }

    /** The key under which the history map finds the current grid. */
    function Key(): int
      reads this
    {
      hash(grid.Fill())
    }

    /** The history of the current grid state. */
    function Current(): History
      reads this
    {
      StateHistory(history, Key())
    }

    /** `getHistoryInsert`: the symbols tried at `p` in the current grid state, empty when
        nothing was recorded there. */
    function HistoryInsert(p: Position): (tried: set<Option<Symbol>>)
      reads this
      ensures Key() in history && p in history[Key()] ==> tried == history[Key()][p]
      ensures !(Key() in history && p in history[Key()]) ==> tried == {}
    {
      Tried(Current(), p)
    }

    /** `getPossiblePlays`: the grid's plays at `p` minus the symbols tried there. */
    function PossiblePlays(p: Position): (plays: set<Symbol>)
      reads this
      ensures plays <= grid.PossiblePlays(p)
      ensures forall s :: s in plays <==> s in grid.PossiblePlays(p) && Some(s) !in HistoryInsert(p)
      ensures HistoryInsert(p) == {} ==> plays == grid.PossiblePlays(p)
    {
      FilteredPlays(grid, HistoryInsert(p), p)
    }

    /** `insertSymbol`: asks the grid to insert, then pushes the position whether or not the
        grid accepted the symbol. */
    method InsertSymbol(symbol: Symbol, position: Position)
      modifies this
      ensures grid == old(grid).Insert(symbol, position)
      ensures lastInserts == old(lastInserts) + [position]
      ensures history == old(history)
    {
      grid := grid.Insert(symbol, position);
      lastInserts := lastInserts + [position];
    }

    /** `rollBack`: nothing on an empty stack; otherwise pops the last position, clears its
        cell and records the symbol it held (possibly none) at that position in the history
        of the grid state the clearing leads to. */
    method RollBack()
      modifies this
      ensures old(lastInserts) == [] ==> grid == old(grid) && lastInserts == [] && history == old(history)
      ensures old(lastInserts) != [] ==>
                var p := old(lastInserts)[|old(lastInserts)| - 1];
                var k := hash(old(grid).Reset(p).Fill());
                var h := StateHistory(old(history), k);
                lastInserts == old(lastInserts)[..|old(lastInserts)| - 1] &&
                grid == old(grid).Reset(p) &&
                history == old(history)[k := h[p := Tried(h, p) + {old(grid).SymbolAt(p)}]]
      ensures old(lastInserts) != [] ==>
                var p := old(lastInserts)[|old(lastInserts)| - 1];
                old(grid).SymbolAt(p) in HistoryInsert(p)
      ensures HistoryGrows(old(history), history)
    {
      if lastInserts == [] {
        return;
      }
      var p := lastInserts[|lastInserts| - 1];
      lastInserts := lastInserts[..|lastInserts| - 1];
      var removed := grid.SymbolAt(p);
      grid := grid.Reset(p);
      var current := Current();
      history := history[Key() := current[p := Tried(current, p) + {removed}]];
    }

    /** What `solve` does first in the solvers that restart their bookkeeping. */
    method Clear()
      modifies this
      ensures grid == old(grid) && lastInserts == [] && history == map[]
    {
      lastInserts := [];
      history := map[];
    }

    /** `chooseRandomSymbol`: some member of the set; `None` stands for the exception
        `Random.nextInt(0)` throws on an empty set. */
    method ChooseRandomSymbol(possiblePlays: set<Symbol>) returns (symbol: Option<Symbol>)
      ensures symbol.Some? <==> possiblePlays != {}
      ensures symbol.Some? ==> symbol.value in possiblePlays
    {
      if possiblePlays == {} {
        return None;
      }
      var s :| s in possiblePlays;
      return Some(s);
    }

    /** `chooseRandomPosition`: some member of the set; `None` stands for the
        `IllegalArgumentException` thrown on an empty set. */
    method ChooseRandomPosition(positions: set<Position>) returns (position: Option<Position>)
      ensures position.Some? <==> positions != {}
      ensures position.Some? ==> position.value in positions
    {
      if positions == {} {
        return None;
      }
      var p :| p in positions;
      return Some(p);
    }
  }
}
