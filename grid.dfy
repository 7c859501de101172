/**
 * The grid the solvers work on (`sudoku.Grid` of the solver revision), as a value: the
 * present cells keyed by position, the rules (position set and alphabet index) and the list
 * of alphabets. Only the operations the solvers and the generator use are modelled:
 * `getSymbol`, `getPossiblePlays`, `insertSymbol`, `resetSymbol`, `isComplete`,
 * `isInsideGrid` and the cell/rule exchange done by the generator.
 */
module Grids {
  import opened Wrappers
  import opened Positions
  import opened Cells

  /** A rule as the grid holds it: its positions and the index of its alphabet. */
  datatype RuleData = RuleData(positions: set<Position>, indexSymbols: int)

  /** What a grid holds at each present position: the data a solution is recognised by. */
  type Fill = map<Position, Option<Symbol>>

  datatype Grid = Grid(size: Position, cells: map<Position, CellValue>, rules: seq<RuleData>,
                       alphabets: seq<set<Symbol>>, randomBlock: bool)
  {
    /** `isInsideGrid`: the grid has a cell at `p`, empty or filled. */
    function InsideGrid(p: Position): (inside: bool)
      ensures inside <==> IsEmpty(p) || SymbolAt(p).Some?
    {
      p in cells
    }

    /** `p` lies within the size of the grid. */
    predicate InBounds(p: Position) {
      0 <= p.x < size.x && 0 <= p.y < size.y
    }

    function SymbolAt(p: Position): Option<Symbol> {
      if p in cells then cells[p].symbol else None
    }

    /** A present cell holding no symbol. */
    predicate IsEmpty(p: Position) {
      p in cells && cells[p].symbol.None?
    }

    function RuleIds(p: Position): seq<int> {
      if p in cells then cells[p].idRules else []
    }

    function RulePositions(r: int): set<Position> {
      if 0 <= r < |rules| then rules[r].positions else {}
    }

    /** The alphabet of rule `r` (empty for an id or an alphabet index out of range). */
    function Alphabet(r: int): set<Symbol> {
      if 0 <= r < |rules| && 0 <= rules[r].indexSymbols < |alphabets| then alphabets[rules[r].indexSymbols] else {}
    }

    /** The symbols the other cells of rule `r` already hold. */
    function Used(r: int, p: Position): set<Symbol> {
      set q | q in RulePositions(r) && q != p && q in cells && cells[q].symbol.Some? :: cells[q].symbol.value
    }

    /** What rule `r` still allows at `p`. */
    function Allowed(r: int, p: Position): set<Symbol> {
      Alphabet(r) - Used(r, p)
    }

    /** `getPossiblePlays`: nothing for an absent or filled cell or one without rules,
        otherwise the symbols every rule of the cell still allows. */
    function PossiblePlays(p: Position): (plays: set<Symbol>)
      ensures !IsEmpty(p) || |RuleIds(p)| == 0 ==> plays == {}
      ensures forall s :: s in plays <==>
                IsEmpty(p) && |RuleIds(p)| > 0 && forall i | 0 <= i < |RuleIds(p)| :: s in Allowed(RuleIds(p)[i], p)
    {
      if !IsEmpty(p) || |cells[p].idRules| == 0 then {}
      else
        var ids := cells[p].idRules;
        set s | s in Allowed(ids[0], p) && forall i | 0 <= i < |ids| :: s in Allowed(ids[i], p)
    }

    /** The check `insertSymbol` makes: `p` is an empty cell inside the grid, and every rule
        containing `p` has `s` in its alphabet and nowhere else among its positions. */
    function Legal(s: Symbol, p: Position): (legal: bool)
      ensures legal <==> IsEmpty(p) && forall r | 0 <= r < |rules| && p in rules[r].positions :: s in Allowed(r, p)
    {
      InsideGrid(p) && IsEmpty(p) &&
      forall r | 0 <= r < |rules| && p in rules[r].positions ::
        s in Alphabet(r) && forall q | q in rules[r].positions && q != p :: SymbolAt(q) != Some(s)
    }

    /** `insertSymbol`: stores `s` at `p` when the insert is legal, and is a no-op otherwise. */
    function Insert(s: Symbol, p: Position): (g: Grid)
      ensures SameShape(this, g)
      ensures g.SymbolAt(p) == if Legal(s, p) then Some(s) else SymbolAt(p)
      ensures forall q | q in cells && q != p :: g.cells[q] == cells[q]
    {
      if Legal(s, p) then this.(cells := cells[p := cells[p].(symbol := Some(s))]) else this
    }

    /** `resetSymbol`: clears the cell at `p`, whatever it holds. */
    function Reset(p: Position): (g: Grid)
      ensures SameShape(this, g)
      ensures g.SymbolAt(p) == None
      ensures forall q | q in cells && q != p :: g.cells[q] == cells[q]
    {
      if p in cells then this.(cells := cells[p := cells[p].(symbol := None)]) else this
    }

    /** `isComplete`: every present cell holds a symbol, so the grid has no empty cell. */
    function IsComplete(): (complete: bool)
      ensures complete <==> EmptyCells() == {}
    {
      assert forall p | p in cells && cells[p].symbol.None? :: p in EmptyCells();
      forall p | p in cells :: cells[p].symbol.Some?
    }

    function EmptyCells(): set<Position> {
      set p | p in cells && cells[p].symbol.None?
    }

    function EmptyCount(): nat {
      |EmptyCells()|
    }

    function Fill(): Fill {
      map p | p in cells :: cells[p].symbol
    }

    /** No rule holds a symbol outside its alphabet or the same symbol twice. */
    predicate Consistent() {
      forall r, p | 0 <= r < |rules| && p in rules[r].positions && SymbolAt(p).Some? ::
        SymbolAt(p).value in Alphabet(r) &&
        forall q | q in rules[r].positions && q != p :: SymbolAt(q) != SymbolAt(p)
    }

    /** What the grid builder establishes: the size is not negative, every cell lies inside
        it, cell rule ids are valid, and a cell lists a rule exactly when the rule contains it. */
    predicate WellFormed() {
      size.x >= 0 && size.y >= 0 &&
      (forall p | p in cells :: InBounds(p)) &&
      (forall p, i | p in cells && 0 <= i < |cells[p].idRules| ::
         0 <= cells[p].idRules[i] < |rules| && p in rules[cells[p].idRules[i]].positions) &&
      (forall r, p | 0 <= r < |rules| && p in rules[r].positions :: p in cells && r in cells[p].idRules)
    }
  }

  /** Two grids with the same size, rules, alphabets, present cells and rule lists: they can
      differ only in the symbols the cells hold. */
  predicate SameShape(a: Grid, b: Grid) {
    a.size == b.size && a.rules == b.rules && a.alphabets == b.alphabets && a.randomBlock == b.randomBlock &&
    a.cells.Keys == b.cells.Keys &&
    forall p | p in a.cells :: a.cells[p].idRules == b.cells[p].idRules
  }

  /** `p` comes before row `y`, column `x` in a row-major scan of the grid. */
  predicate Before(p: Position, y: int, x: int) {
    p.y < y || (p.y == y && p.x < x)
  }

  /** `g` keeps every symbol of `base` and may fill more cells. */
  predicate Extends(g: Grid, base: Grid) {
    SameShape(base, g) &&
    forall p | p in base.cells && base.cells[p].symbol.Some? :: g.cells[p].symbol == base.cells[p].symbol
  }

  /** A solution of `base`: a complete, consistent grid that extends it. */
  predicate Solution(g: Grid, base: Grid) {
    Extends(g, base) && g.IsComplete() && g.Consistent()
  }

  /** The positions of the rules among `ids` whose alphabet contains `sym` (none for `None`). */
  function TouchedBy(g: Grid, ids: seq<int>, sym: Option<Symbol>): set<Position>
  {
    if ids == [] then {}
    else
      TouchedBy(g, ids[..|ids| - 1], sym) +
      (if sym.Some? && sym.value in g.Alphabet(ids[|ids| - 1]) then g.RulePositions(ids[|ids| - 1]) else {})
  }

  /** The positions sharing a rule with `p`. */
  function RelatedBy(g: Grid, ids: seq<int>): set<Position>
  {
    if ids == [] then {} else RelatedBy(g, ids[..|ids| - 1]) + g.RulePositions(ids[|ids| - 1])
  }

  lemma {:induction false} TouchedByMembers(g: Grid, ids: seq<int>, sym: Option<Symbol>, q: Position)
    ensures q in TouchedBy(g, ids, sym) <==>
            exists i :: 0 <= i < |ids| && sym.Some? && sym.value in g.Alphabet(ids[i]) && q in g.RulePositions(ids[i])
  {
    if ids != [] {
      var front := ids[..|ids| - 1];
      TouchedByMembers(g, front, sym, q);
      if q in TouchedBy(g, front, sym) {
        var i :| 0 <= i < |front| && sym.Some? && sym.value in g.Alphabet(front[i]) && q in g.RulePositions(front[i]);
        assert ids[i] == front[i];
      }
      if exists i :: 0 <= i < |ids| && sym.Some? && sym.value in g.Alphabet(ids[i]) && q in g.RulePositions(ids[i]) {
        var i :| 0 <= i < |ids| && sym.Some? && sym.value in g.Alphabet(ids[i]) && q in g.RulePositions(ids[i]);
        if i < |front| {
          assert front[i] == ids[i];
        }
      }
    }
  }

  lemma {:induction false} RelatedByMembers(g: Grid, ids: seq<int>, q: Position)
    ensures q in RelatedBy(g, ids) <==> exists i :: 0 <= i < |ids| && q in g.RulePositions(ids[i])
  {
    if ids != [] {
      var front := ids[..|ids| - 1];
      RelatedByMembers(g, front, q);
      if q in RelatedBy(g, front) {
        var i :| 0 <= i < |front| && q in g.RulePositions(front[i]);
        assert ids[i] == front[i];
      }
      if exists i :: 0 <= i < |ids| && q in g.RulePositions(ids[i]) {
        var i :| 0 <= i < |ids| && q in g.RulePositions(ids[i]);
        if i < |front| {
          assert front[i] == ids[i];
        }
      }
    }
  }

  /** The positions reached from a list of rule ids depend only on the shape of the grid. */
  lemma {:induction false} TouchedBySameShape(g: Grid, h: Grid, ids: seq<int>, sym: Option<Symbol>)
    requires SameShape(g, h)
    ensures TouchedBy(g, ids, sym) == TouchedBy(h, ids, sym)
    ensures RelatedBy(g, ids) == RelatedBy(h, ids)
  {
    if ids != [] {
      TouchedBySameShape(g, h, ids[..|ids| - 1], sym);
    }
  }

  /** Every position an entropy propagation recomputes shares a rule with the changed cell. */
  lemma TouchedInRelated(g: Grid, ids: seq<int>, sym: Option<Symbol>)
    ensures TouchedBy(g, ids, sym) <= RelatedBy(g, ids)
  {
    forall q | q in TouchedBy(g, ids, sym)
      ensures q in RelatedBy(g, ids)
    {
      TouchedByMembers(g, ids, sym, q);
      RelatedByMembers(g, ids, q);
    }
  }

  /** In a well-formed grid the related positions are present cells, and a cell is related
      to itself as soon as it has a rule. */
  lemma RelatedAreCells(g: Grid, p: Position)
    requires g.WellFormed()
    ensures RelatedBy(g, g.RuleIds(p)) <= g.cells.Keys
    ensures |g.RuleIds(p)| > 0 ==> p in RelatedBy(g, g.RuleIds(p))
  {
    var ids := g.RuleIds(p);
    forall q | q in RelatedBy(g, ids)
      ensures q in g.cells
    {
      RelatedByMembers(g, ids, q);
    }
    if |ids| > 0 {
      RelatedByMembers(g, ids, p);
      assert p in g.RulePositions(ids[0]);
    }
  }

  /** Possible plays and the legality check agree: a symbol is offered at `p` exactly when
      inserting it there is legal and the cell has at least one rule. */
  lemma PlaysIffLegal(g: Grid, s: Symbol, p: Position)
    requires g.WellFormed()
    ensures s in g.PossiblePlays(p) <==> g.Legal(s, p) && |g.RuleIds(p)| > 0
  {
    if g.IsEmpty(p) && |g.cells[p].idRules| > 0 {
      var ids := g.cells[p].idRules;
      if s in g.PossiblePlays(p) {
        forall r | 0 <= r < |g.rules| && p in g.rules[r].positions
          ensures s in g.Alphabet(r) && forall q | q in g.rules[r].positions && q != p :: g.SymbolAt(q) != Some(s)
        {
          var i :| 0 <= i < |ids| && ids[i] == r;
          assert s in g.Allowed(ids[i], p);
          forall q | q in g.rules[r].positions && q != p
            ensures g.SymbolAt(q) != Some(s)
          {
            if q in g.cells && g.cells[q].symbol.Some? {
              assert g.cells[q].symbol.value in g.Used(r, p);
            }
          }
        }
      }
      if g.Legal(s, p) {
        forall i | 0 <= i < |ids|
          ensures s in g.Allowed(ids[i], p)
        {
          var r := ids[i];
          assert p in g.rules[r].positions;
          assert s !in g.Used(r, p) by {
            forall q | q in g.RulePositions(r) && q != p && q in g.cells && g.cells[q].symbol.Some?
              ensures g.cells[q].symbol.value != s
            {
              assert g.SymbolAt(q) == g.cells[q].symbol;
            }
          }
        }
        assert s in g.Allowed(ids[0], p);
      }
    }
  }

  /** Insert and reset keep a grid well formed. */
  lemma ShapeKeepsWellFormed(g: Grid, h: Grid)
    requires g.WellFormed() && SameShape(g, h)
    ensures h.WellFormed()
  {
  }

  /** A legal insert keeps every rule consistent. */
  lemma InsertKeepsConsistent(g: Grid, s: Symbol, p: Position)
    requires g.Consistent()
    ensures g.Insert(s, p).Consistent()
  {
    var h := g.Insert(s, p);
    if g.Legal(s, p) {
      forall r, x | 0 <= r < |h.rules| && x in h.rules[r].positions && h.SymbolAt(x).Some?
        ensures h.SymbolAt(x).value in h.Alphabet(r)
        ensures forall y | y in h.rules[r].positions && y != x :: h.SymbolAt(y) != h.SymbolAt(x)
      {
        if x == p {
          assert p in g.rules[r].positions;
        } else {
          assert h.SymbolAt(x) == g.SymbolAt(x);
        }
        forall y | y in h.rules[r].positions && y != x
          ensures h.SymbolAt(y) != h.SymbolAt(x)
        {
          if x != p && y != p {
            assert h.SymbolAt(y) == g.SymbolAt(y) && h.SymbolAt(x) == g.SymbolAt(x);
          }
        }
      }
    }
  }

  /** Clearing a cell keeps every rule consistent. */
  lemma ResetKeepsConsistent(g: Grid, p: Position)
    requires g.Consistent()
    ensures g.Reset(p).Consistent()
  {
    var h := g.Reset(p);
    forall r, x | 0 <= r < |h.rules| && x in h.rules[r].positions && h.SymbolAt(x).Some?
      ensures h.SymbolAt(x).value in h.Alphabet(r)
      ensures forall y | y in h.rules[r].positions && y != x :: h.SymbolAt(y) != h.SymbolAt(x)
    {
      assert x != p;
      assert h.SymbolAt(x) == g.SymbolAt(x);
      forall y | y in h.rules[r].positions && y != x
        ensures h.SymbolAt(y) != h.SymbolAt(x)
      {
        if y != p {
          assert h.SymbolAt(y) == g.SymbolAt(y);
        }
      }
    }
  }

  /** Inserting a legal symbol and clearing the cell again gives the grid back. */
  lemma InsertThenReset(g: Grid, s: Symbol, p: Position)
    requires g.Legal(s, p)
    ensures g.Insert(s, p).Reset(p) == g
  {
    var h := g.Insert(s, p).Reset(p);
    assert h.cells[p] == g.cells[p];
    assert h.cells == g.cells;
  }

  /** In a consistent grid, a filled cell can be cleared and its symbol put back: the insert
      is legal and the grid is restored. */
  lemma ResetThenReinsert(g: Grid, p: Position)
    requires g.WellFormed() && g.Consistent()
    requires p in g.cells && g.cells[p].symbol.Some?
    ensures g.Reset(p).Legal(g.cells[p].symbol.value, p)
    ensures g.Reset(p).Insert(g.cells[p].symbol.value, p) == g
  {
    var s := g.cells[p].symbol.value;
    var h := g.Reset(p);
    forall r | 0 <= r < |h.rules| && p in h.rules[r].positions
      ensures s in h.Alphabet(r) && forall q | q in h.rules[r].positions && q != p :: h.SymbolAt(q) != Some(s)
    {
      assert g.SymbolAt(p) == Some(s);
      forall q | q in h.rules[r].positions && q != p
        ensures h.SymbolAt(q) != Some(s)
      {
        assert h.SymbolAt(q) == g.SymbolAt(q);
      }
    }
    var k := h.Insert(s, p);
    assert k.cells[p] == g.cells[p];
    assert k.cells == g.cells;
  }

  /** A legal insert fills exactly one empty cell. */
  lemma InsertFillsOne(g: Grid, s: Symbol, p: Position)
    requires g.Legal(s, p)
    ensures g.Insert(s, p).EmptyCells() == g.EmptyCells() - {p}
    ensures g.Insert(s, p).EmptyCount() == g.EmptyCount() - 1
  {
    var h := g.Insert(s, p);
    assert h.EmptyCells() == g.EmptyCells() - {p};
    assert p in g.EmptyCells();
  }

  /** Clearing a filled cell adds exactly one empty cell. */
  lemma ResetEmptiesOne(g: Grid, p: Position)
    requires p in g.cells && g.cells[p].symbol.Some?
    ensures g.Reset(p).EmptyCells() == g.EmptyCells() + {p}
    ensures g.Reset(p).EmptyCount() == g.EmptyCount() + 1
  {
    var h := g.Reset(p);
    assert h.EmptyCells() == g.EmptyCells() + {p};
    assert p !in g.EmptyCells();
  }

  /** A grid extending another has no more empty cells than it. */
  lemma ExtendsFewerEmpty(g: Grid, base: Grid)
    requires Extends(g, base)
    ensures g.EmptyCells() <= base.EmptyCells()
    ensures g.EmptyCount() <= base.EmptyCount()
  {
    var a, b := g.EmptyCells(), base.EmptyCells();
    assert a <= b;
    assert b == a + (b - a);
  }

  /** Extension is transitive. */
  lemma ExtendsTransitive(a: Grid, b: Grid, c: Grid)
    requires Extends(a, b) && Extends(b, c)
    ensures Extends(a, c)
  {
  }

  /** One cell changes between `g` and `h`, between empty and `s`. */
  predicate ChangedAt(g: Grid, h: Grid, p: Position, s: Symbol) {
    SameShape(g, h) && p in g.cells &&
    (forall q | q in g.cells && q != p :: h.cells[q] == g.cells[q]) &&
    g.SymbolAt(p) in {None, Some(s)} && h.SymbolAt(p) in {None, Some(s)}
  }

  /** A rule that does not contain the changed cell allows the same symbols as before. */
  lemma AllowedOffRule(g: Grid, h: Grid, p: Position, s: Symbol, r: int, q: Position)
    requires ChangedAt(g, h, p, s)
    requires p !in g.RulePositions(r)
    ensures h.Allowed(r, q) == g.Allowed(r, q)
  {
    assert h.Used(r, q) == g.Used(r, q) by {
      forall t | t in h.Used(r, q)
        ensures t in g.Used(r, q)
      {
        var x :| x in h.RulePositions(r) && x != q && x in h.cells && h.cells[x].symbol.Some? && h.cells[x].symbol.value == t;
        assert g.cells[x] == h.cells[x];
      }
      forall t | t in g.Used(r, q)
        ensures t in h.Used(r, q)
      {
        var x :| x in g.RulePositions(r) && x != q && x in g.cells && g.cells[x].symbol.Some? && g.cells[x].symbol.value == t;
        assert g.cells[x] == h.cells[x];
      }
    }
  }

  /** A rule whose alphabet lacks the changed symbol allows the same symbols as before. */
  lemma AllowedOffAlphabet(g: Grid, h: Grid, p: Position, s: Symbol, r: int, q: Position)
    requires ChangedAt(g, h, p, s)
    requires s !in g.Alphabet(r)
    ensures h.Allowed(r, q) == g.Allowed(r, q)
  {
    forall t | t != s
      ensures t in h.Used(r, q) <==> t in g.Used(r, q)
    {
      if t in h.Used(r, q) {
        var x :| x in h.RulePositions(r) && x != q && x in h.cells && h.cells[x].symbol.Some? && h.cells[x].symbol.value == t;
        if x != p {
          assert g.cells[x] == h.cells[x];
        }
      }
      if t in g.Used(r, q) {
        var x :| x in g.RulePositions(r) && x != q && x in g.cells && g.cells[x].symbol.Some? && g.cells[x].symbol.value == t;
        if x != p {
          assert g.cells[x] == h.cells[x];
        }
      }
    }
    assert h.Alphabet(r) == g.Alphabet(r);
  }

  /** Changing the symbol `s` at `p` leaves the possible plays of every other cell unchanged,
      unless that cell shares with `p` a rule whose alphabet contains `s`. */
  lemma PlaysKept(g: Grid, h: Grid, p: Position, s: Symbol, q: Position)
    requires g.WellFormed() && ChangedAt(g, h, p, s)
    requires q != p && q !in TouchedBy(g, g.RuleIds(p), Some(s))
    ensures h.PossiblePlays(q) == g.PossiblePlays(q)
  {
    if g.IsEmpty(q) && |g.cells[q].idRules| > 0 {
      var ids := g.cells[q].idRules;
      assert h.cells[q] == g.cells[q];
      forall i | 0 <= i < |ids|
        ensures h.Allowed(ids[i], q) == g.Allowed(ids[i], q)
      {
        var r := ids[i];
        if p in g.RulePositions(r) {
          assert r in g.RuleIds(p);
          var j :| 0 <= j < |g.RuleIds(p)| && g.RuleIds(p)[j] == r;
          TouchedByMembers(g, g.RuleIds(p), Some(s), q);
          assert q in g.RulePositions(r);
          AllowedOffAlphabet(g, h, p, s, r, q);
        } else {
          AllowedOffRule(g, h, p, s, r, q);
        }
      }
    } else {
      assert h.IsEmpty(q) == g.IsEmpty(q);
    }
  }

  /** The changed cell and its related cells are the only ones whose plays can move. */
  lemma PlaysKeptOffRelated(g: Grid, h: Grid, p: Position, s: Symbol, q: Position)
    requires g.WellFormed() && ChangedAt(g, h, p, s)
    requires q != p && q !in RelatedBy(g, g.RuleIds(p))
    ensures h.PossiblePlays(q) == g.PossiblePlays(q)
  {
    TouchedInRelated(g, g.RuleIds(p), Some(s));
    PlaysKept(g, h, p, s, q);
  }

  /** A legal insert and the reset of a filled cell are single-cell changes. */
  lemma InsertChanges(g: Grid, s: Symbol, p: Position)
    requires g.Legal(s, p)
    ensures ChangedAt(g, g.Insert(s, p), p, s)
  {
  }

  lemma ResetChanges(g: Grid, p: Position)
    requires p in g.cells && g.cells[p].symbol.Some?
    ensures ChangedAt(g, g.Reset(p), p, g.cells[p].symbol.value)
  {
  }

  /** Clearing a filled cell whose symbol belongs to the alphabets of its rules (as after a
      legal insert) recomputes the cell itself during propagation, as soon as it has a rule. */
  lemma ResetCellTouched(g: Grid, p: Position)
    requires g.WellFormed()
    requires p in g.cells && g.cells[p].symbol.Some? && |g.cells[p].idRules| > 0
    requires forall r | 0 <= r < |g.rules| && p in g.rules[r].positions :: g.cells[p].symbol.value in g.Alphabet(r)
    ensures p in TouchedBy(g, g.RuleIds(p), g.SymbolAt(p))
  {
    var ids := g.RuleIds(p);
    assert p in g.rules[ids[0]].positions;
    TouchedByMembers(g, ids, g.SymbolAt(p), p);
  }
}
