/**
 * The superseded zone `sudoku.Sudoku`: a rectangle of `size` cells placed at an absolute
 * position, holding legacy rules in one list and, in a parallel list, the absolute positions
 * each rule covers.
 */
module LegacyZones {
  import opened Wrappers
  import opened Lists
  import opened Positions
  import Rules
  import LegacyRules

  /** The positions of a list, moved by `offset`. */
  function Moved(ps: seq<Position>, offset: Position): set<Position> {
    Rules.Translate(set p | p in ps :: p, offset)
  }

  class Sudoku {
    var rules: seq<LegacyRules.Rule>
    var rulesPosition: seq<set<Position>>
    var absolutePosition: Position
    var size: Position

    /** `Sudoku(Position size, Position absolutePosition)`. */
    constructor (size: Position, absolutePosition: Position)
      ensures this.size == size && this.absolutePosition == absolutePosition
      ensures rules == [] && rulesPosition == []
    {
      this.size, this.absolutePosition := size, absolutePosition;
      rules, rulesPosition := [], [];
    }

    /** `Sudoku(int squareSize, Position absolutePosition)`: a square. */
    constructor Square(squareSize: int, absolutePosition: Position)
      ensures size == Uniform(squareSize) && this.absolutePosition == absolutePosition
      ensures rules == [] && rulesPosition == []
    {
      size, this.absolutePosition := Uniform(squareSize), absolutePosition;
      rules, rulesPosition := [], [];
    }

    /** `Sudoku(int squareSize, int diagonalAbsolutePosition)`: a square on the diagonal. */
    constructor SquareOnDiagonal(squareSize: int, diagonalAbsolutePosition: int)
      ensures size == Uniform(squareSize) && absolutePosition == Uniform(diagonalAbsolutePosition)
      ensures rules == [] && rulesPosition == []
    {
      size, absolutePosition := Uniform(squareSize), Uniform(diagonalAbsolutePosition);
      rules, rulesPosition := [], [];
    }

    /** `Sudoku(Position size, int diagonalAbsolutePosition)`: placed on the diagonal. */
    constructor OnDiagonal(size: Position, diagonalAbsolutePosition: int)
      ensures this.size == size && absolutePosition == Uniform(diagonalAbsolutePosition)
      ensures rules == [] && rulesPosition == []
    {
      this.size, absolutePosition := size, Uniform(diagonalAbsolutePosition);
      rules, rulesPosition := [], [];
    }

    /** Each rule has its list of positions. */
    ghost predicate InStep()
      reads this
    {
      |rules| == |rulesPosition|
    }

    /** `getMinPosition()`: the corner the zone is placed at. */
    function GetMinPosition(): (p: Position)
      reads this
      ensures p == absolutePosition
    {
      absolutePosition
    }

    /** `getMaxPosition()`: the corner one past the zone's last cell. */
    function GetMaxPosition(): (p: Position)
      reads this
      ensures p == absolutePosition.Add(size)
    {
      absolutePosition.Add(size)
    }

    /** `isInsideOfSudoku(position)`, on a position relative to the zone: the position lies
        in the zone's rectangle `[0, size.x) × [0, size.y)`. */
    function IsInsideOfSudoku(position: Position): (inside: bool)
      reads this
      ensures inside <==> position in Rules.Rect(0, size.x - 1, 0, size.y - 1)
    {
      Rules.RectMembers(0, size.x - 1, 0, size.y - 1, position);
      position.x >= 0 && position.y >= 0 && position.x < size.x && position.y < size.y
    }

    /** The positions inside the zone are its rectangle `[0, size.x) × [0, size.y)`, and
        once placed they lie from the min position up to, not including, the max one. */
    lemma InsideIsRectangle(position: Position)
      ensures IsInsideOfSudoku(position) <==> position in Rules.Rect(0, size.x - 1, 0, size.y - 1)
      ensures IsInsideOfSudoku(position) ==>
        var q := position.Add(absolutePosition);
        GetMinPosition().x <= q.x < GetMaxPosition().x && GetMinPosition().y <= q.y < GetMaxPosition().y
    {
      Rules.RectMembers(0, size.x - 1, 0, size.y - 1, position);
    }

    /** Every position of the list lies inside the zone. */
    ghost predicate AllInside(ps: seq<Position>)
      reads this
    {
      forall k | 0 <= k < |ps| :: IsInsideOfSudoku(ps[k])
    }

    /** `add(rule, rulePositions)` as written: the rule is appended first; the positions, moved
        to absolute ones, are appended only when all of them are inside, so a rule with an
        outside position is kept without a position set and the two lists fall out of
        step. */
    method Add(rule: LegacyRules.Rule, rulePositions: seq<Position>)
      modifies this
      ensures absolutePosition == old(absolutePosition) && size == old(size)
      ensures rules == old(rules) + [rule]
      ensures AllInside(rulePositions) ==> rulesPosition == old(rulesPosition) + [Moved(rulePositions, absolutePosition)]
      ensures !AllInside(rulePositions) ==> rulesPosition == old(rulesPosition)
      ensures old(InStep()) && !AllInside(rulePositions) ==> |rules| == |rulesPosition| + 1
    {
      rules := rules + [rule];
      var ruleAbsolutePos := MovedInside(rulePositions);
      if ruleAbsolutePos.Some? {
        rulesPosition := rulesPosition + [ruleAbsolutePos.value];
      }
    }

    /** `add` with the rule appended only together with its positions, as the message of
        the cancelled addition says: the lists stay in step. */
    method AddFixed(rule: LegacyRules.Rule, rulePositions: seq<Position>)
      modifies this
      ensures absolutePosition == old(absolutePosition) && size == old(size)
      ensures AllInside(rulePositions) ==> rules == old(rules) + [rule] && rulesPosition == old(rulesPosition) + [Moved(rulePositions, absolutePosition)]
      ensures !AllInside(rulePositions) ==> rules == old(rules) && rulesPosition == old(rulesPosition)
      ensures old(InStep()) ==> InStep()
    {
      var ruleAbsolutePos := MovedInside(rulePositions);
      if ruleAbsolutePos.Some? {
        rules := rules + [rule];
        rulesPosition := rulesPosition + [ruleAbsolutePos.value];
      }
    }

    /** The loop of `add`: the positions moved to absolute ones, or nothing as soon as one of
        them is outside. */
    method MovedInside(rulePositions: seq<Position>) returns (moved: Option<set<Position>>)
      ensures moved.Some? <==> AllInside(rulePositions)
      ensures moved.Some? ==> moved.value == Moved(rulePositions, absolutePosition)
    {
      var ruleAbsolutePos: set<Position> := {};
      var k := 0;
      while k < |rulePositions|
        invariant 0 <= k <= |rulePositions|
        invariant forall m | 0 <= m < k :: IsInsideOfSudoku(rulePositions[m])
        invariant ruleAbsolutePos == set m | 0 <= m < k :: rulePositions[m].Add(absolutePosition)
      {
        var pos := rulePositions[k];
        if !IsInsideOfSudoku(pos) {
          return None;
        }
        ruleAbsolutePos := ruleAbsolutePos + {pos.Add(absolutePosition)};
        k := k + 1;
      }
      assert ruleAbsolutePos == Moved(rulePositions, absolutePosition) by {
        forall q | q in Moved(rulePositions, absolutePosition)
          ensures q in ruleAbsolutePos
        {
          var p :| p in rulePositions && q == p.Add(absolutePosition);
          var m :| 0 <= m < |rulePositions| && rulePositions[m] == p;
        }
        forall m | 0 <= m < |rulePositions|
          ensures rulePositions[m].Add(absolutePosition) in Moved(rulePositions, absolutePosition)
        {
          var p := rulePositions[m];
          assert p in rulePositions;
          assert p in (set p | p in rulePositions :: p);
        }
      }
      return Some(ruleAbsolutePos);
    }

    /** `getNumberRule()`: the number of rules appended so far. */
    function GetNumberRule(): (n: nat)
      reads this
      ensures n == |rules|
    {
      |rules|
    }

    /** `getRule(index)`: the rule at `index`, or `None` for the `IndexOutOfBoundsException`
        of an index out of range. */
    function GetRule(index: int): (r: Option<LegacyRules.Rule>)
      reads this
      ensures r.None? <==> !(0 <= index < |rules|)
      ensures r.Some? ==> r.value == rules[index]
    {
      if 0 <= index < |rules| then Some(rules[index]) else None
    }

    /** `getRulePositions(index)`: the position set at `index`, or `None` for the
        `IndexOutOfBoundsException` of an index out of range. */
    function GetRulePositions(index: int): (ps: Option<set<Position>>)
      reads this
      ensures ps.None? <==> !(0 <= index < |rulesPosition|)
      ensures ps.Some? ==> ps.value == rulesPosition[index]
    {
      if 0 <= index < |rulesPosition| then Some(rulesPosition[index]) else None
    }

    /** `remove(rule)`: the entry at the rule's first index leaves both lists. An absent rule
        has index -1, so the first removal throws an `IndexOutOfBoundsException` and nothing
        changes; a rule with no position set at its index leaves the rule list and then the
        second removal throws. `thrown` stands for either exception. */
    method Remove(rule: LegacyRules.Rule) returns (thrown: bool)
      modifies this
      ensures absolutePosition == old(absolutePosition) && size == old(size)
      ensures thrown <==> rule !in old(rules) || IndexOf(old(rules), rule) >= |old(rulesPosition)|
      ensures rules == RemoveFirst(old(rules), rule)
      ensures rule in old(rules) ==> rules == RemoveAt(old(rules), IndexOf(old(rules), rule))
      ensures !thrown ==> rulesPosition == RemoveAt(old(rulesPosition), IndexOf(old(rules), rule))
      ensures thrown ==> rulesPosition == old(rulesPosition)
      ensures old(InStep()) ==> InStep()
    {
      var index := IndexOf(rules, rule);
      RemoveFirstIsRemoveAtIndexOf(rules, rule);
      if index == -1 {
        return true;
      }
      rules := RemoveAt(rules, index);
      if index >= |rulesPosition| {
        return true;
      }
      rulesPosition := RemoveAt(rulesPosition, index);
      thrown := false;
    }
  }
}
