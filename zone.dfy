/**
 * The zone template `sudoku.sudoku.Sudoku`: a square of `size` by `size` cells at an offset,
 * its alphabet, and the rules laid over it. Only rules whose every position lies inside the
 * square are accepted. A zone given fewer symbols than its size is left uninitialised: the
 * constructor returns before storing anything, so the fields keep Java's defaults (size 0,
 * no offset, no rule list), and appending a rule to the missing list throws.
 */
module Sudokus {
  import opened Wrappers
  import opened Lists
  import opened Positions
  import opened Rules
  import opened Factors
  import opened SudokuClassics

  /** The rules of `rs` whose positions all lie in the square `[0, size)²`, in order. */
  ghost function Accepted(rs: seq<Rule>, size: int): seq<Rule>
    reads rs
  {
    if rs == [] then []
    else Accepted(rs[..|rs| - 1], size) + (if rs[|rs| - 1].positions <= Square(size) then [rs[|rs| - 1]] else [])
  }

  /** Rules holding the blocks of the shape `[f0, f1]` at their first `f0 * f1` indices tile
      the square with them. */
  lemma BlocksTileRules(rs: seq<Rule>, f0: int, f1: int)
    requires f0 >= 1 && f1 >= 1 && |rs| >= f0 * f1
    requires forall k | 0 <= k < f0 * f1 :: rs[k].positions == BlockAt(f0, f1, k)
    ensures forall q | q in Square(f0 * f1) :: exists k | 0 <= k < f0 * f1 :: q in rs[k].positions
    ensures forall q, k, j | 0 <= k < f0 * f1 && 0 <= j < f0 * f1 && q in rs[k].positions && q in rs[j].positions :: k == j
  {
    forall q | q in Square(f0 * f1)
      ensures exists k | 0 <= k < f0 * f1 :: q in rs[k].positions
    {
      BlocksTile(f0, f1, q);
      var k := (q.y / f0) * f0 + q.x / f1;
      assert q in rs[k].positions;
    }
    forall q, k, j | 0 <= k < f0 * f1 && 0 <= j < f0 * f1 && q in rs[k].positions && q in rs[j].positions
      ensures k == j
    {
      BlockInside(f0, f1, k);
      BlocksTile(f0, f1, q);
    }
  }

  /** Only an empty rule fits in the empty square of an uninitialised zone. */
  lemma EmptyRulesFit(rules: seq<Rule>)
    ensures (exists r | r in rules :: r.positions <= Square(0)) <==> (exists r | r in rules :: r.positions == {})
  {
    forall q
      ensures q !in Square(0)
    {
      RectMembers(0, -1, 0, -1, q);
    }
  }

  class Sudoku {
    var size: int
    var offsetPosition: Option<Position>
    var rules: seq<Rule>
    var symbols: set<string>
    /** False when the constructor returned early; `rules` then stands for Java's null. */
    var initialised: bool

    /** An uninitialised zone keeps the default field values. */
    ghost predicate Valid()
      reads this
    {
      (initialised ==> offsetPosition.Some?) &&
      (!initialised ==> size == 0 && offsetPosition == None && rules == [] && symbols == {})
    }

    /** `Sudoku(size, symbols, offsetPosition)`; the overloads taking an int offset or none
        pass `Position(offset)` or `Position(0)`. */
    constructor (size: int, symbols: set<string>, offsetPosition: Position)
      ensures Valid()
      ensures initialised <==> |symbols| >= size
      ensures initialised ==> this.size == size && this.offsetPosition == Some(offsetPosition) &&
                              rules == [] && this.symbols == symbols
    {
      if |symbols| < size {
        this.size, this.offsetPosition, rules, this.symbols, initialised := 0, None, [], {}, false;
      } else {
        this.size, this.offsetPosition, rules, this.symbols, initialised := size, Some(offsetPosition), [], symbols, true;
      }
    }

    /** `Sudoku(size, symbols, rules, diagonalOffsetPosition)`: the zone with every given
        rule that fits, then its `size` columns, then its `size` rows. On an uninitialised
        zone the size is 0, so only an empty rule fits, and appending it to the missing list
        throws a `NullPointerException`; `None` stands for that exception. */
    static method WithRules(size: int, symbols: set<string>, rules: seq<Rule>, offsetPosition: Position)
      returns (zone: Option<Sudoku>)
      ensures zone.None? <==> |symbols| < size && exists r | r in rules :: r.positions == {}
      ensures zone.Some? ==> fresh(zone.value)
      ensures zone.Some? ==>
                var z := zone.value;
                z.Valid() && (z.initialised <==> |symbols| >= size) && (!z.initialised ==> z.rules == [])
      ensures zone.Some? && zone.value.initialised ==>
                var z := zone.value;
                z.size == size && z.offsetPosition == Some(offsetPosition) && z.symbols == symbols &&
                |z.rules| == |Accepted(rules, size)| + 2 * MaxInt(size, 0) &&
                z.rules[..|Accepted(rules, size)|] == Accepted(rules, size) &&
                (forall k | |Accepted(rules, size)| <= k < |Accepted(rules, size)| + MaxInt(size, 0) ::
                   z.rules[k].kind == Column && z.rules[k].positions == VSeg(k - |Accepted(rules, size)|, 0, size - 1)) &&
                (forall k | |Accepted(rules, size)| + MaxInt(size, 0) <= k < |z.rules| ::
                   z.rules[k].kind == Row &&
                   z.rules[k].positions == HSeg(0, size - 1, k - |Accepted(rules, size)| - MaxInt(size, 0)))
    {
      var z := new Sudoku(size, symbols, offsetPosition);
      var thrown := z.AddAll(rules);
      if !z.initialised {
        EmptyRulesFit(rules);
      }
      if thrown {
        return None;
      }
      ghost var accepted := z.rules;
      z.AddColumnRules();
      ghost var columns := z.rules;
      z.AddRowRules();
      if z.initialised {
        assert z.rules[..|accepted|] == columns[..|accepted|];
      }
      return Some(z);
    }

    /** The first loop of the constructor: `add` on each rule, in order, until one throws. */
    method AddAll(rules: seq<Rule>) returns (thrown: bool)
      requires Valid()
      modifies this
      ensures Valid() && size == old(size) && offsetPosition == old(offsetPosition) &&
              symbols == old(symbols) && initialised == old(initialised)
      ensures thrown <==> !initialised && exists r | r in rules :: r.positions <= Square(size)
      ensures !thrown ==> this.rules == old(this.rules) + Accepted(rules, size)
      ensures thrown ==> this.rules == old(this.rules)
    {
      var i := 0;
      while i < |rules|
        invariant 0 <= i <= |rules| && Valid()
        invariant size == old(size) && offsetPosition == old(offsetPosition) &&
                  symbols == old(symbols) && initialised == old(initialised)
        invariant this.rules == old(this.rules) + Accepted(rules[..i], size)
        invariant !initialised ==> this.rules == old(this.rules) && forall j | 0 <= j < i :: !(rules[j].positions <= Square(size))
      {
        assert rules[..i + 1][..i] == rules[..i];
        thrown := Add(rules[i]);
        if thrown {
          return;
        }
        i := i + 1;
      }
      assert rules[..i] == rules;
      return false;
    }

    /** `SudokuClassic(size, offset)`: the `size` blocks of the shape `primeFactors` picks,
        laid out row by row, then the `size` rows and the `size` columns: 3·size rules. The
        blocks lie in the square, have `size` cells each, and tile it: every position of the
        square is in exactly one of them. A size below 2 has no factors, and the source's
        `blockSize.get(0)` throws. */
    constructor Classic(size: int, offset: Position)
      requires size >= 2
      ensures Valid() && initialised
      ensures this.size == size && offsetPosition == Some(offset) && symbols == Symbols(size)
      ensures |rules| == 3 * size
      ensures forall k | 0 <= k < size ::
                rules[k].kind == Block && rules[k].positions <= Square(size) && |rules[k].positions| == size
      ensures forall q | q in Square(size) :: exists k | 0 <= k < size :: q in rules[k].positions
      ensures forall q, k, j | 0 <= k < size && 0 <= j < size && q in rules[k].positions && q in rules[j].positions :: k == j
      ensures forall k | size <= k < 2 * size :: rules[k].kind == Row && rules[k].positions == HSeg(0, size - 1, k - size)
      ensures forall k | 2 * size <= k < 3 * size ::
                rules[k].kind == Column && rules[k].positions == VSeg(k - 2 * size, 0, size - 1)
    {
      var generated := GenerateSymbols(size);
      this.size, offsetPosition, rules, symbols, initialised := size, Some(offset), [], generated, true;
      new;
      var blockSize := PrimeFactors(size);
      var f0, f1 := blockSize[0], blockSize[1];
      AddBlocks(f0, f1);
      ghost var blocks := rules;
      AddRowRules();
      ghost var rows := rules;
      AddColumnRules();
      assert rules[..size] == rows[..size] == blocks;
      BlocksTileRules(rules, f0, f1);
    }

    /** The block loops of the `SudokuClassic` constructor, for the shape `[f0, f1]`: for
        each of the `size / f0` block rows and each of the `size / f1` blocks in it, the block
        rule of its two corners. Every block fits, so all `size` are appended. */
    method AddBlocks(f0: int, f1: int)
      requires Valid() && initialised && rules == [] && f0 >= 1 && f1 >= 1 && f0 * f1 == size
      modifies this
      ensures Valid() && initialised && size == old(size) && offsetPosition == old(offsetPosition) && symbols == old(symbols)
      ensures |rules| == size
      ensures forall k | 0 <= k < size :: rules[k].kind == Block && rules[k].positions == BlockAt(f0, f1, k)
      ensures forall k | 0 <= k < size :: rules[k].positions <= Square(size) && |rules[k].positions| == size
    {
      ShapeDivides(f0, f1);
      BlocksInside(f0, f1);
      var rows := size / f0;
      var y := 0;
      while y < rows
        invariant 0 <= y <= rows && Valid() && initialised
        invariant size == old(size) && offsetPosition == old(offsetPosition) && symbols == old(symbols)
        invariant |rules| == y * f0
        invariant forall k | 0 <= k < |rules| :: rules[k].kind == Block && rules[k].positions == BlockAt(f0, f1, k)
      {
        AddBlockRow(f0, f1, y);
        y := y + 1;
      }
    }

    /** One pass of the inner block loop: the `f0` blocks of block row `y`. */
    method AddBlockRow(f0: int, f1: int, y: int)
      requires Valid() && initialised && f0 >= 1 && f1 >= 1 && f0 * f1 == size && 0 <= y < f1
      requires |rules| == y * f0
      requires forall k | 0 <= k < |rules| :: rules[k].kind == Block && rules[k].positions == BlockAt(f0, f1, k)
      modifies this
      ensures Valid() && initialised && size == old(size) && offsetPosition == old(offsetPosition) && symbols == old(symbols)
      ensures |rules| == (y + 1) * f0
      ensures forall k | 0 <= k < |rules| :: rules[k].kind == Block && rules[k].positions == BlockAt(f0, f1, k)
    {
      var x := 0;
      while x < f0
        invariant 0 <= x <= f0 && Valid() && initialised
        invariant size == old(size) && offsetPosition == old(offsetPosition) && symbols == old(symbols)
        invariant |rules| == y * f0 + x
        invariant forall k | 0 <= k < |rules| :: rules[k].kind == Block && rules[k].positions == BlockAt(f0, f1, k)
      {
        IndexOfBlock(f0, f1, x, y);
        BlockRectInside(f0, f1, x, y);
        var start := new MutablePosition(x * f1, y * f0);
        var end := new MutablePosition((x + 1) * f1 - 1, (y + 1) * f0 - 1);
        assert (x + 1) * f1 == x * f1 + f1 && (y + 1) * f0 == y * f0 + f0;
        var block := new Rule.BlockBetween(start, end);
        assert block.positions == BlockAt(f0, f1, y * f0 + x);
        var thrown := Add(block);
        x := x + 1;
      }
      assert (y + 1) * f0 == y * f0 + f0;
    }

    /** `getMinPosition()`: the offset, or null on an uninitialised zone. */
    function GetMinPosition(): (p: Option<Position>)
      reads this
      ensures p == offsetPosition
    {
      offsetPosition
    }

    /** `getMaxPosition()`: the corner `size` cells right of and below the offset. On an
        uninitialised zone the offset is null and the call throws a `NullPointerException`,
        which `None` stands for. */
    function GetMaxPosition(): (p: Option<Position>)
      reads this
      ensures p.None? <==> offsetPosition.None?
      ensures p.Some? ==> p.value.x - offsetPosition.value.x == size && p.value.y - offsetPosition.value.y == size
    {
      if offsetPosition.None? then None else Some(offsetPosition.value.AddBoth(size))
    }

    /** `isInsideOfSudoku(position)`: the position lies in the zone's square. */
    function IsInsideOfSudoku(position: Position): (inside: bool)
      reads this
      ensures inside <==> position in Square(size)
    {
      RectMembers(0, size - 1, 0, size - 1, position);
      position.x >= 0 && position.y >= 0 && position.x < size && position.y < size
    }

    /** `add(rule)`: appends the rule when every one of its positions lies in the square, and
        leaves the list as it is otherwise. On an uninitialised zone the append throws a
        `NullPointerException` (`thrown`), since the list is missing. */
    method Add(rule: Rule) returns (thrown: bool)
      requires Valid()
      modifies this
      ensures Valid() && size == old(size) && offsetPosition == old(offsetPosition) &&
              symbols == old(symbols) && initialised == old(initialised)
      ensures thrown <==> !initialised && rule.positions <= Square(size)
      ensures rule.positions <= Square(size) && !thrown ==> rules == old(rules) + [rule]
      ensures !(rule.positions <= Square(size)) || thrown ==> rules == old(rules)
    {
      var rest := rule.positions;
      while rest != {}
        invariant rest <= rule.positions
        invariant forall p | p in rule.positions - rest :: p in Square(size)
        modifies {}
        decreases |rest|
      {
        var pos :| pos in rest;
        RectMembers(0, size - 1, 0, size - 1, pos);
        if !IsInsideOfSudoku(pos) {
          return false;
        }
        rest := rest - {pos};
      }
      assert rule.positions - rest == rule.positions;
      if !initialised {
        return true;
      }
      rules := rules + [rule];
      return false;
    }

    /** `getNumberRule()`: the number of rules; on an uninitialised zone the list is null
        and the call throws a `NullPointerException`, which `None` stands for. */
    function GetNumberRule(): (n: Option<nat>)
      reads this
      ensures n.None? <==> !initialised
      ensures n.Some? ==> n.value == |rules|
    {
      if initialised then Some(|rules|) else None
    }

    /** `getRule(index)`: the rule at `index`; `None` stands for the `NullPointerException`
        of an uninitialised zone and the `IndexOutOfBoundsException` of an index out of
        range. */
    function GetRule(index: int): (r: Option<Rule>)
      reads this
      ensures r.None? <==> !initialised || !(0 <= index < |rules|)
      ensures r.Some? ==> r.value == rules[index]
    {
      if initialised && 0 <= index < |rules| then Some(rules[index]) else None
    }

    /** `remove(rule)`: the first occurrence of that very rule object goes, and the number of
        rules drops by one; a rule not in the list changes nothing. On an uninitialised zone
        the list is null and the call throws a `NullPointerException` (`thrown`). */
    method Remove(rule: Rule) returns (thrown: bool)
      requires Valid()
      modifies this
      ensures Valid() && size == old(size) && offsetPosition == old(offsetPosition) &&
              symbols == old(symbols) && initialised == old(initialised)
      ensures thrown <==> !initialised
      ensures thrown ==> rules == old(rules)
      ensures !thrown ==> rules == RemoveFirst(old(rules), rule)
      ensures !thrown && rule in old(rules) ==>
                |rules| == |old(rules)| - 1 && multiset(rules) == multiset(old(rules)) - multiset{rule}
      ensures rule !in old(rules) ==> rules == old(rules)
    {
      if !initialised {
        return true;
      }
      thrown := false;
      RemoveFirstMultiset(rules, rule);
      RemoveFirstIsRemoveAtIndexOf(rules, rule);
      rules := RemoveFirst(rules, rule);
    }

    /** `addColumnRules()`: one column rule of height `size` for each `x` below `size`, all
        accepted. */
    method AddColumnRules()
      requires Valid()
      modifies this
      ensures Valid() && size == old(size) && offsetPosition == old(offsetPosition) &&
              symbols == old(symbols) && initialised == old(initialised)
      ensures |rules| == |old(rules)| + MaxInt(size, 0)
      ensures rules[..|old(rules)|] == old(rules)
      ensures forall k | |old(rules)| <= k < |rules| ::
                fresh(rules[k]) && rules[k].kind == Column && rules[k].positions == VSeg(k - |old(rules)|, 0, size - 1)
    {
      var x := 0;
      while x < size
        invariant 0 <= x <= MaxInt(size, 0) && Valid()
        invariant size == old(size) && offsetPosition == old(offsetPosition) && symbols == old(symbols) && initialised == old(initialised)
        invariant |rules| == |old(rules)| + x && rules[..|old(rules)|] == old(rules)
        invariant forall k | |old(rules)| <= k < |rules| ::
                    fresh(rules[k]) && rules[k].kind == Column && rules[k].positions == VSeg(k - |old(rules)|, 0, size - 1)
      {
        var column := new Rule.ColumnFrom(Position(x, 0), size);
        assert Position(x, 0) in column.positions;
        forall p | p in column.positions
          ensures p in Square(size)
        {
          RectMembers(0, size - 1, 0, size - 1, p);
        }
        var thrown := Add(column);
        x := x + 1;
      }
    }

    /** `addRowRules()`: one row rule of length `size` for each `y` below `size`, all
        accepted. */
    method AddRowRules()
      requires Valid()
      modifies this
      ensures Valid() && size == old(size) && offsetPosition == old(offsetPosition) &&
              symbols == old(symbols) && initialised == old(initialised)
      ensures |rules| == |old(rules)| + MaxInt(size, 0)
      ensures rules[..|old(rules)|] == old(rules)
      ensures forall k | |old(rules)| <= k < |rules| ::
                fresh(rules[k]) && rules[k].kind == Row && rules[k].positions == HSeg(0, size - 1, k - |old(rules)|)
    {
      var y := 0;
      while y < size
        invariant 0 <= y <= MaxInt(size, 0) && Valid()
        invariant size == old(size) && offsetPosition == old(offsetPosition) && symbols == old(symbols) && initialised == old(initialised)
        invariant |rules| == |old(rules)| + y && rules[..|old(rules)|] == old(rules)
        invariant forall k | |old(rules)| <= k < |rules| ::
                    fresh(rules[k]) && rules[k].kind == Row && rules[k].positions == HSeg(0, size - 1, k - |old(rules)|)
      {
        var row := new Rule.RowFrom(Position(0, y), size);
        assert Position(0, y) in row.positions;
        forall p | p in row.positions
          ensures p in Square(size)
        {
          RectMembers(0, size - 1, 0, size - 1, p);
        }
        var thrown := Add(row);
        y := y + 1;
      }
    }
  }
}
