/**
 * A grid cell (`sudoku.Cell`): an optional symbol and the list of ids of the rules the
 * cell belongs to. `CellValue` is the same pair as a value, as the grid stores it.
 */
module Cells {
  import opened Wrappers
  import opened Lists
  import opened Rules

  /** Symbols are the strings a Sudoku's alphabet is made of. */
  type Symbol = string

  datatype CellValue = CellValue(symbol: Option<Symbol>, idRules: seq<int>)

  /** Number of ids in `ids` that name a block rule of `rules`. */
  function CountBlocks(ids: seq<int>, rules: seq<Rule>): nat
    requires forall i :: 0 <= i < |ids| ==> 0 <= ids[i] < |rules|
  {
    if ids == [] then 0
    else CountBlocks(ids[..|ids| - 1], rules) + (if rules[ids[|ids| - 1]].kind == Block then 1 else 0)
  }

  /** The block count never exceeds the number of ids, and reaches it exactly when every id
      names a block rule. */
  lemma {:induction false} CountBlocksBounds(ids: seq<int>, rules: seq<Rule>)
    requires forall i :: 0 <= i < |ids| ==> 0 <= ids[i] < |rules|
    ensures CountBlocks(ids, rules) <= |ids|
    ensures CountBlocks(ids, rules) == |ids| <==> forall i :: 0 <= i < |ids| ==> rules[ids[i]].kind == Block
    ensures CountBlocks(ids, rules) == 0 <==> forall i :: 0 <= i < |ids| ==> rules[ids[i]].kind != Block
  {
    if ids != [] {
      var front := ids[..|ids| - 1];
      CountBlocksBounds(front, rules);
      assert forall i :: 0 <= i < |front| ==> front[i] == ids[i];
    }
  }

  /** Counting over two lists of ids adds up. */
  lemma {:induction false} CountBlocksAppend(a: seq<int>, b: seq<int>, rules: seq<Rule>)
    requires forall i :: 0 <= i < |a| ==> 0 <= a[i] < |rules|
    requires forall i :: 0 <= i < |b| ==> 0 <= b[i] < |rules|
    ensures CountBlocks(a + b, rules) == CountBlocks(a, rules) + CountBlocks(b, rules)
    decreases |b|
  {
    if b == [] {
      assert a + b == a;
    } else {
      var front := b[..|b| - 1];
      assert (a + b)[..|a + b| - 1] == a + front;
      CountBlocksAppend(a, front, rules);
    }
  }

  class Cell {
    var symbol: Option<Symbol>
    var idRules: seq<int>

    function Value(): CellValue
      reads this
    {
      CellValue(symbol, idRules)
    }

    /** `new Cell(idRules)`: an empty cell in the given rules. */
    constructor WithRules(idRules: seq<int>)
      ensures Value() == CellValue(None, idRules)
    {
      symbol := None;
      this.idRules := idRules;
    }

    /** `new Cell(idRule)`: an empty cell in one rule. */
    constructor InRule(idRule: int)
      ensures Value() == CellValue(None, [idRule])
    {
      symbol := None;
      idRules := [];
      new;
      AddRule(idRule);
    }

    /** `new Cell()`: an empty cell in no rule. */
    constructor ()
      ensures Value() == CellValue(None, [])
    {
      symbol := None;
      idRules := [];
    }

    /** `addRule(idRule)`: appends the id. */
    method AddRule(idRule: int)
      modifies this
      ensures idRules == old(idRules) + [idRule] && symbol == old(symbol)
    {
      idRules := idRules + [idRule];
    }

    /** `deleteRule(idRule)`: removes the first occurrence of the id, if any. */
    method DeleteRule(idRule: int)
      modifies this
      ensures idRules == RemoveFirst(old(idRules), idRule) && symbol == old(symbol)
      ensures idRule in old(idRules) ==> multiset(idRules) == multiset(old(idRules)) - multiset{idRule}
      ensures idRule !in old(idRules) ==> idRules == old(idRules)
    {
      RemoveFirstMultiset(idRules, idRule);
      RemoveFirstIsRemoveAtIndexOf(idRules, idRule);
      idRules := RemoveFirst(idRules, idRule);
    }

    /** `insertSymbol(symbol)`: fills an empty cell; a filled cell keeps its symbol. */
    method InsertSymbol(s: Symbol)
      modifies this
      ensures old(symbol).None? ==> symbol == Some(s)
      ensures old(symbol).Some? ==> symbol == old(symbol)
      ensures idRules == old(idRules)
    {
      if symbol.Some? {
        return;
      }
      symbol := Some(s);
    }

    /** `resetSymbol()`: empties the cell. */
    method ResetSymbol()
      modifies this
      ensures symbol == None && idRules == old(idRules)
    {
      symbol := None;
    }

    /** `getIdRule(index)`: the id at `index`, or -1 when `index` is out of range. */
    function GetIdRule(index: int): (id: int)
      reads this
      ensures 0 <= index < |idRules| ==> id == idRules[index]
      ensures !(0 <= index < |idRules|) ==> id == -1
    {
      if index < 0 || index >= |idRules| then -1 else idRules[index]
    }

    /** `getNumberOfRules()`. */
    function NumberOfRules(): (n: nat)
      reads this
      ensures n == |idRules|
    {
      |idRules|
    }

    /** `getNumberOfPrintableRules(rules)`: how many of the cell's rules are blocks; `None`
        stands for the `IndexOutOfBoundsException` `rules.get` throws on an id outside the
        list. */
    method NumberOfPrintableRules(rules: seq<Rule>) returns (count: Option<nat>)
      ensures count.None? <==> exists i :: 0 <= i < |idRules| && !(0 <= idRules[i] < |rules|)
      ensures count.Some? ==> count.value == CountBlocks(idRules, rules) && count.value <= |idRules|
    {
      var n := 0;
      var i := 0;
      while i < |idRules|
        invariant 0 <= i <= |idRules|
        invariant forall j :: 0 <= j < i ==> 0 <= idRules[j] < |rules|
        invariant n == CountBlocks(idRules[..i], rules)
      {
        if !(0 <= idRules[i] < |rules|) {
          return None;
        }
        assert idRules[..i + 1][..i] == idRules[..i];
        if rules[idRules[i]].kind == Block {
          n := n + 1;
        }
        i := i + 1;
      }
      assert idRules[..i] == idRules;
      CountBlocksBounds(idRules, rules);
      return Some(n);
    }
  }
}
