/**
 * Rules: sets of positions whose symbols must all differ (`sudoku.rule.Rule` and its
 * `RowRule`, `ColumnRule` and `BlockRule` subclasses). A rule also records the index of
 * the alphabet its cells draw from. The subclass a rule was built as is kept in `kind`,
 * since cells count their block rules.
 */
module Rules {
  import opened Positions

  datatype RuleKind = Plain | Row | Column | Block

  /** The horizontal run `(x0, y) .. (x1, y)`; empty when `x1 < x0`. */
  function HSeg(x0: int, x1: int, y: int): set<Position> {
    set x | x0 <= x <= x1 :: Position(x, y)
  }

  /** The vertical run `(x, y0) .. (x, y1)`; empty when `y1 < y0`. */
  function VSeg(x: int, y0: int, y1: int): set<Position> {
    set y | y0 <= y <= y1 :: Position(x, y)
  }

  /** The rectangle with corners `(x0, y0)` and `(x1, y1)`, both included. */
  function Rect(x0: int, x1: int, y0: int, y1: int): set<Position> {
    set x, y | x0 <= x <= x1 && y0 <= y <= y1 :: Position(x, y)
  }

  /** Every position of `s` moved by `offset`. */
  function Translate(s: set<Position>, offset: Position): set<Position> {
    set p | p in s :: p.Add(offset)
  }

  lemma RectMembers(x0: int, x1: int, y0: int, y1: int, q: Position)
    ensures q in Rect(x0, x1, y0, y1) <==> x0 <= q.x <= x1 && y0 <= q.y <= y1
  {
    if x0 <= q.x <= x1 && y0 <= q.y <= y1 {
      assert q == Position(q.x, q.y);
    }
  }

  lemma HSegGrow(x0: int, x1: int, y: int)
    requires x0 <= x1 + 1
    ensures HSeg(x0, x1 + 1, y) == HSeg(x0, x1, y) + {Position(x1 + 1, y)}
  {
  }

  lemma VSegGrow(x: int, y0: int, y1: int)
    requires y0 <= y1 + 1
    ensures VSeg(x, y0, y1 + 1) == VSeg(x, y0, y1) + {Position(x, y1 + 1)}
  {
  }

  lemma RectGrow(x0: int, x1: int, y0: int, y1: int)
    requires y0 <= y1 + 1
    ensures Rect(x0, x1, y0, y1 + 1) == Rect(x0, x1, y0, y1) + HSeg(x0, x1, y1 + 1)
  {
    forall x, y | x0 <= x <= x1 && y0 <= y <= y1 + 1
      ensures Position(x, y) in Rect(x0, x1, y0, y1) + HSeg(x0, x1, y1 + 1)
    {
      if y <= y1 {
        RectMembers(x0, x1, y0, y1, Position(x, y));
      }
    }
  }

  lemma RowOutsideRect(x0: int, x1: int, y0: int, y1: int)
    ensures Rect(x0, x1, y0, y1 - 1) * HSeg(x0, x1, y1) == {}
  {
    forall x | x0 <= x <= x1
      ensures Position(x, y1) !in Rect(x0, x1, y0, y1 - 1)
    {
      RectMembers(x0, x1, y0, y1 - 1, Position(x, y1));
    }
  }

  /** A horizontal run holds one position per column it spans. */
  lemma {:induction false} HSegSize(x0: int, x1: int, y: int)
    ensures |HSeg(x0, x1, y)| == if x0 <= x1 then x1 - x0 + 1 else 0
    decreases x1 - x0
  {
    if x1 < x0 {
      assert HSeg(x0, x1, y) == {};
    } else {
      HSegSize(x0, x1 - 1, y);
      HSegGrow(x0, x1 - 1, y);
    }
  }

  /** A vertical run holds one position per row it spans. */
  lemma {:induction false} VSegSize(x: int, y0: int, y1: int)
    ensures |VSeg(x, y0, y1)| == if y0 <= y1 then y1 - y0 + 1 else 0
    decreases y1 - y0
  {
    if y1 < y0 {
      assert VSeg(x, y0, y1) == {};
    } else {
      VSegSize(x, y0, y1 - 1);
      VSegGrow(x, y0, y1 - 1);
    }
  }

  /** A rectangle holds width times height positions. */
  lemma {:induction false} RectSize(x0: int, x1: int, y0: int, y1: int)
    requires x0 <= x1 + 1 && y0 <= y1 + 1
    ensures |Rect(x0, x1, y0, y1)| == (x1 - x0 + 1) * (y1 - y0 + 1)
    decreases y1 - y0
  {
    var w := x1 - x0 + 1;
    if y1 < y0 {
      assert Rect(x0, x1, y0, y1) == {};
    } else {
      var upper, row := Rect(x0, x1, y0, y1 - 1), HSeg(x0, x1, y1);
      RectSize(x0, x1, y0, y1 - 1);
      RectGrow(x0, x1, y0, y1 - 1);
      HSegSize(x0, x1, y1);
      RowOutsideRect(x0, x1, y0, y1);
      assert |upper + row| == |upper| + |row|;
      assert w * (y1 - y0) + w == w * (y1 - y0 + 1);
    }
  }

  /** Moving a rule keeps its number of positions. */
  lemma {:induction false} TranslateSize(s: set<Position>, offset: Position)
    ensures |Translate(s, offset)| == |s|
    decreases |s|
  {
    if s != {} {
      var p :| p in s;
      TranslateSize(s - {p}, offset);
      assert Translate(s, offset) == Translate(s - {p}, offset) + {p.Add(offset)};
      assert p.Add(offset) !in Translate(s - {p}, offset);
    }
  }

  /** Moving by an offset and then by its negative gives back the original positions. */
  lemma TranslateInverse(s: set<Position>, offset: Position)
    ensures Translate(Translate(s, offset), offset.Negative()) == s
  {
    forall p | p in s
      ensures p in Translate(Translate(s, offset), offset.Negative())
    {
      assert p.Add(offset).Add(offset.Negative()) == p;
    }
  }

  /** The text `toString` lists between the brackets: the elements' text, comma separated. */
  function Joined(order: seq<Position>): string {
    if |order| == 0 then ""
    else if |order| == 1 then order[0].ToString()
    else Joined(order[..|order| - 1]) + ", " + order[|order| - 1].ToString()
  }

  /** Every element's text followed by ", ", as the builder loop of `toString` appends it. */
  function Appended(order: seq<Position>): string {
    if |order| == 0 then "" else Appended(order[..|order| - 1]) + (order[|order| - 1].ToString() + ", ")
  }

  /** Cutting the final separator off the builder's text leaves the comma-separated list. */
  lemma {:induction false} AppendedIsJoinedWithSeparator(order: seq<Position>)
    requires |order| > 0
    ensures Appended(order) == Joined(order) + ", "
  {
    if |order| > 1 {
      AppendedIsJoinedWithSeparator(order[..|order| - 1]);
    } else {
      assert order[..0] == [];
    }
  }

  /** One step of iterating a set: taking an element not yet visited extends the visit order. */
  lemma EnumerationStep(all: set<Position>, rest: set<Position>, order: seq<Position>, pos: Position)
    requires rest <= all && pos in rest
    requires multiset(order) == multiset(all - rest)
    ensures multiset(order + [pos]) == multiset(all - (rest - {pos}))
    ensures Appended(order + [pos]) == Appended(order) + (pos.ToString() + ", ")
  {
    assert all - (rest - {pos}) == (all - rest) + {pos};
    assert (order + [pos])[..|order|] == order;
  }

  lemma NonEmptyEnumeration(all: set<Position>, order: seq<Position>)
    requires all != {} && multiset(order) == multiset(all)
    ensures |order| > 0
  {
    var p :| p in all;
    assert p in multiset(order);
  }

  lemma ConcatAssociative(a: string, b: string, c: string)
    ensures (a + b) + c == a + (b + c)
  {
  }

  /** The opening text of `toString`. */
  const Header: string := "Rule Positions: ["

  class Rule {
    var positions: set<Position>
    var indexSymbols: int
    const kind: RuleKind

    /** `new Rule()`, `new RowRule()`, `new ColumnRule()`, `new BlockRule()` and the
        constructors taking a set of positions, which copy that set. */
    constructor Of(kind: RuleKind, positions: set<Position>)
      ensures this.kind == kind && this.positions == positions && indexSymbols == 0
    {
      this.kind := kind;
      this.positions := positions;
      indexSymbols := 0;
    }

    /** `new Rule(position)`. */
    constructor Single(position: Position)
      ensures kind == Plain && positions == {position} && indexSymbols == 0
    {
      kind := Plain;
      positions := {};
      indexSymbols := 0;
      new;
      Add(position);
    }

    /** `new RowRule(start, length)`: `length` cells rightwards from `start`. */
    constructor RowFrom(start: Position, length: int)
      ensures kind == Row && indexSymbols == 0
      ensures positions == HSeg(start.x, start.x + length - 1, start.y)
    {
      kind := Row;
      positions := {};
      indexSymbols := 0;
      new;
      var i := 0;
      while i < length
        invariant 0 <= i <= MaxInt(length, 0)
        invariant positions == HSeg(start.x, start.x + i - 1, start.y)
        invariant kind == Row && indexSymbols == 0
      {
        HSegGrow(start.x, start.x + i - 1, start.y);
        Add(start.AddX(i));
        i := i + 1;
      }
      if length < 0 {
        assert HSeg(start.x, start.x + length - 1, start.y) == {} == HSeg(start.x, start.x - 1, start.y);
      }
    }

    /** `new RowRule(start, end)`: the cells between two ends of the same row, in either
        order; no cell at all when the ends lie on different rows. */
    constructor RowBetween(start: Position, end: Position)
      ensures kind == Row && indexSymbols == 0
      ensures start.y != end.y ==> positions == {}
      ensures start.y == end.y ==> positions == HSeg(MinInt(start.x, end.x), MaxInt(start.x, end.x), start.y)
    {
      kind := Row;
      positions := {};
      indexSymbols := 0;
      new;
      if start.y != end.y {
        return;
      }
      var first, last := start, end;
      if first.x > last.x {
        first, last := last, first;
      }
      var i := first.x;
      while i <= last.x
        invariant first.x <= i <= last.x + 1
        invariant positions == HSeg(first.x, i - 1, start.y)
        invariant kind == Row && indexSymbols == 0
      {
        HSegGrow(first.x, i - 1, start.y);
        Add(Position(i, first.y));
        i := i + 1;
      }
    }

    /** `new ColumnRule(start, height)`: `height` cells downwards from `start`. */
    constructor ColumnFrom(start: Position, height: int)
      ensures kind == Column && indexSymbols == 0
      ensures positions == VSeg(start.x, start.y, start.y + height - 1)
    {
      kind := Column;
      positions := {};
      indexSymbols := 0;
      new;
      var i := 0;
      while i < height
        invariant 0 <= i <= MaxInt(height, 0)
        invariant positions == VSeg(start.x, start.y, start.y + i - 1)
        invariant kind == Column && indexSymbols == 0
      {
        VSegGrow(start.x, start.y, start.y + i - 1);
        Add(start.AddY(i));
        i := i + 1;
      }
      if height < 0 {
        assert VSeg(start.x, start.y, start.y + height - 1) == {} == VSeg(start.x, start.y, start.y - 1);
      }
    }

    /** `new ColumnRule(start, end)`: the cells between two ends of the same column, in
        either order; no cell at all when the ends lie on different columns. */
    constructor ColumnBetween(start: Position, end: Position)
      ensures kind == Column && indexSymbols == 0
      ensures start.x != end.x ==> positions == {}
      ensures start.x == end.x ==> positions == VSeg(start.x, MinInt(start.y, end.y), MaxInt(start.y, end.y))
    {
      kind := Column;
      positions := {};
      indexSymbols := 0;
      new;
      if start.x != end.x {
        return;
      }
      var first, last := start, end;
      if first.y > last.y {
        first, last := last, first;
      }
      var i := first.y;
      while i <= last.y
        invariant first.y <= i <= last.y + 1
        invariant positions == VSeg(start.x, first.y, i - 1)
        invariant kind == Column && indexSymbols == 0
      {
        VSegGrow(start.x, first.y, i - 1);
        Add(Position(first.x, i));
        i := i + 1;
      }
    }

    /** `new BlockRule(start, end)`: the rectangle spanned by two corners. As in the
        source, the corner objects are normalised in place so that `start` ends up the
        top-left and `end` the bottom-right corner. */
    constructor BlockBetween(start: MutablePosition, end: MutablePosition)
      modifies start, end
      ensures kind == Block && indexSymbols == 0
      ensures start.x == MinInt(old(start.x), old(end.x)) && end.x == MaxInt(old(start.x), old(end.x))
      ensures start.y == MinInt(old(start.y), old(end.y)) && end.y == MaxInt(old(start.y), old(end.y))
      ensures positions == Rect(start.x, end.x, start.y, end.y)
    {
      kind := Block;
      positions := {};
      indexSymbols := 0;
      new;
      if start.x > end.x {
        var temp := start.x;
        start.SetX(end.x);
        end.SetX(temp);
      }
      if start.y > end.y {
        var temp := start.y;
        start.SetY(end.y);
        end.SetY(temp);
      }
      var x0, x1, y0, y1 := start.x, end.x, start.y, end.y;
      var y := y0;
      while y <= y1
        invariant y0 <= y <= y1 + 1
        invariant positions == Rect(x0, x1, y0, y - 1)
        invariant kind == Block && indexSymbols == 0
        invariant start.x == x0 && end.x == x1 && start.y == y0 && end.y == y1
      {
        var x := x0;
        while x <= x1
          invariant x0 <= x <= x1 + 1
          invariant positions == Rect(x0, x1, y0, y - 1) + HSeg(x0, x - 1, y)
          invariant kind == Block && indexSymbols == 0
          invariant start.x == x0 && end.x == x1 && start.y == y0 && end.y == y1
        {
          HSegGrow(x0, x - 1, y);
          Add(Position(x, y));
          x := x + 1;
        }
        RectGrow(x0, x1, y0, y - 1);
        y := y + 1;
      }
    }

    /** `add(position)`. */
    method Add(position: Position)
      modifies this
      ensures positions == old(positions) + {position} && indexSymbols == old(indexSymbols)
    {
      positions := positions + {position};
    }

    /** `offsetRepositioning(offset)`: every position moved by `offset`. */
    method OffsetRepositioning(offset: Position)
      modifies this
      ensures positions == Translate(old(positions), offset) && indexSymbols == old(indexSymbols)
    {
      var updated: set<Position> := {};
      var rest := positions;
      while rest != {}
        invariant rest <= positions
        invariant updated == Translate(positions - rest, offset)
        decreases |rest|
      {
        var pos :| pos in rest;
        updated := updated + {pos.Add(offset)};
        rest := rest - {pos};
      }
      assert positions - rest == positions;
      positions := updated;
    }

    /** `setIndexSymbols(index)`. */
    method SetIndexSymbols(index: int)
      modifies this
      ensures indexSymbols == index && positions == old(positions)
    {
      indexSymbols := index;
    }

    /** `toString()`: "Rule Positions: [" followed by every position once, in the set's
        iteration order, comma separated, and "]". */
    method ToString() returns (s: string, ghost order: seq<Position>)
      ensures multiset(order) == multiset(positions)
      ensures s == Header + Joined(order) + "]"
      ensures |s| > |Header| && s[..|Header|] == Header && s[|s| - 1] == ']'
      ensures positions == {} ==> s == "Rule Positions: []"
    {
      s := Header;
      order := [];
      var rest := positions;
      while rest != {}
        invariant rest <= positions
        invariant multiset(order) == multiset(positions - rest)
        invariant s == Header + Appended(order)
        decreases |rest|
      {
        var pos :| pos in rest;
        EnumerationStep(positions, rest, order, pos);
        var piece := pos.ToString() + ", ";
        ConcatAssociative(Header, Appended(order), piece);
        s := s + piece;
        order := order + [pos];
        rest := rest - {pos};
      }
      assert positions - rest == positions;
      if positions != {} {
        NonEmptyEnumeration(positions, order);
        AppendedIsJoinedWithSeparator(order);
        var joined := Joined(order);
        assert s == Header + joined + ", ";
        s := s[..|s| - 2];
        assert s == Header + joined;
      }
      s := s + "]";
    }
  }
}
