/**
 * The superseded grid `sudoku.Grid`: the block shape from a deterministic two-factor split
 * of the size, the "all other values" rule map, and the numbering of the block, line and
 * column constraints each cell is given. Constraints are modelled by their ids.
 */
module LegacyGrids {
  import opened Text
  import opened Factors
  import SudokuClassics

  /** The block shape `[height, width]` the legacy grid takes from its size. */
  function BlockShape(n: int): seq<int> {
    PadPair(CombineLeading(Factorization(n)))
  }

  /** `Grid.primeFactors(number)`: trial division, then the two leading factors replaced by
      their product at the end until two are left, then a lone factor padded with 1. No
      shuffling: the result is a function of the number. */
  method PrimeFactors(number: int) returns (factors: seq<int>)
    ensures factors == BlockShape(number)
    ensures number <= 1 ==> factors == []
    ensures number >= 2 ==> |factors| == 2 && factors[0] >= 1 && factors[1] >= 1 && factors[0] * factors[1] == number
    ensures IsPrime(number) ==> factors == [number, 1]
  {
    var found := TrialDivision(number);
    FactorPairSpec(number, found);
    if IsPrime(number) {
      PrimePair(number, found);
    }
    factors := Combine(found);
    if |factors| == 1 {
      factors := factors + [1];
    }
  }

  /** Two worked splits: 12 is 2·2·3, folded to [3, 4]; 6 is 2·3. */
  lemma BlockShapeExamples()
    ensures Factorization(12) == [2, 2, 3] && BlockShape(12) == [3, 4]
    ensures Factorization(6) == [2, 3] && BlockShape(6) == [2, 3]
  {
    StripStep(6, 2);
    StripStep(12, 2);
    assert 6 / 2 == 3 && 12 / 2 == 6;
    assert Strip(3, 2) == ([], 3);
    assert [2] + Strip(3, 2).0 == [2];
    assert Strip(6, 2) == ([2], 3);
    assert [2] + Strip(6, 2).0 == [2, 2];
    assert Strip(12, 2) == ([2, 2], 3);
    assert TrialFrom(3, 3) == [3];
    assert TrialFrom(12, 2) == [2, 2] + TrialFrom(3, 3);
    assert TrialFrom(6, 2) == [2] + TrialFrom(3, 3);
    assert CombineLeading([2, 2, 3]) == CombineLeading([3, 4]);
  }

  /** The values `1 .. n` except `i`, in ascending order, as text. */
  function Others(n: int, i: int): seq<string>
    decreases n
  {
    if n <= 0 then [] else Others(n - 1, i) + (if n != i then [IntToString(n)] else [])
  }

  /** `Others(n, i)` leaves out `i` alone: it has one entry fewer than `n` when `i` is among
      `1 .. n`, and its `k`-th entry is `k + 1` below `i` and `k + 2` from `i` on. */
  lemma {:induction false} OthersSpec(n: int, i: int)
    requires n >= 0 && i >= 1
    ensures |Others(n, i)| == if i <= n then n - 1 else n
    ensures forall k | 0 <= k < |Others(n, i)| :: Others(n, i)[k] == IntToString(if k + 1 < i then k + 1 else k + 2)
  {
    if n > 0 {
      OthersSpec(n - 1, i);
    }
  }

  /** `Others(n, i)` holds exactly the other values. */
  lemma OthersMembers(n: int, i: int, j: int)
    requires 1 <= i <= n
    ensures IntToString(j) in Others(n, i) <==> 1 <= j <= n && j != i
  {
    OthersSpec(n, i);
    var o := Others(n, i);
    if IntToString(j) in o {
      var k :| 0 <= k < |o| && o[k] == IntToString(j);
      IntToStringInjective(j, if k + 1 < i then k + 1 else k + 2);
    }
    if 1 <= j <= n && j != i {
      var k := if j < i then j - 1 else j - 2;
      assert o[k] == IntToString(j);
    }
  }

  /** The rule map of the values `1 .. n`: each mapped to the other values of `1 .. size`. */
  function RulesUpTo(n: int, size: int): map<string, seq<string>>
    decreases n
  {
    if n <= 0 then map[] else RulesUpTo(n - 1, size)[IntToString(n) := Others(size, n)]
  }

  lemma {:induction false} RulesUpToSpec(n: int, size: int)
    ensures RulesUpTo(n, size).Keys == SudokuClassics.Symbols(n)
    ensures forall i | 1 <= i <= n :: RulesUpTo(n, size)[IntToString(i)] == Others(size, i)
    decreases n
  {
    if n <= 0 {
      SudokuClassics.SymbolsCount(n);
    } else {
      RulesUpToSpec(n - 1, size);
      SudokuClassics.SymbolsGrow(n);
      forall i | 1 <= i <= n - 1
        ensures IntToString(i) != IntToString(n)
      {
        IntToStringInjective(i, n);
      }
    }
  }

  /** The corrected block index of cell `(i, j)`: `bw` block rows of height `bh`, each
      holding `bh` blocks of width `bw`. */
  function BlockIndex(i: int, j: int, bh: int, bw: int): int
    requires bh >= 1 && bw >= 1
  {
    (i / bh) * bh + j / bw
  }

  /** The block index as `initConstraints` writes it, `(i / bh) * bw + j / bw`. */
  function BlockIndexAsWritten(i: int, j: int, bh: int, bw: int): int
    requires bh >= 1 && bw >= 1
  {
    (i / bh) * bw + j / bw
  }

  /** For size 6 the block shape is [2, 3], and the index written for cell (5, 5) is 7: past
      the end of the six block constraints. */
  lemma AsWrittenIndexLeavesArray()
    ensures BlockShape(6) == [2, 3]
    ensures BlockIndexAsWritten(5, 5, 2, 3) == 7 >= 2 * 3
  {
    BlockShapeExamples();
  }

  /** The corrected index names one of the `bh * bw` blocks ... */
  lemma BlockIndexInRange(i: int, j: int, bh: int, bw: int)
    requires bh >= 1 && bw >= 1 && 0 <= i < bh * bw && 0 <= j < bh * bw
    ensures 0 <= i / bh < bw && 0 <= j / bw < bh
    ensures 0 <= BlockIndex(i, j, bh, bw) < bh * bw
  {
    assert bh * bw == bw * bh;
    SudokuClassics.Quotient(i, bh, bw);
    SudokuClassics.Quotient(j, bw, bh);
    SudokuClassics.IndexOfBlock(bh, bw, j / bw, i / bh);
  }

  /** ... and two cells share it exactly when they lie in the same block row and the same
      block column. */
  lemma SameBlockIndex(i: int, j: int, i2: int, j2: int, bh: int, bw: int)
    requires bh >= 1 && bw >= 1
    requires 0 <= i < bh * bw && 0 <= j < bh * bw && 0 <= i2 < bh * bw && 0 <= j2 < bh * bw
    ensures BlockIndex(i, j, bh, bw) == BlockIndex(i2, j2, bh, bw) <==> i / bh == i2 / bh && j / bw == j2 / bw
  {
    BlockIndexInRange(i, j, bh, bw);
    BlockIndexInRange(i2, j2, bh, bw);
    SudokuClassics.IndexOfBlock(bh, bw, j / bw, i / bh);
    SudokuClassics.IndexOfBlock(bh, bw, j2 / bw, i2 / bh);
  }

  /** The ids `[block, line, column]` cell `(i, j)` is given when numbering starts at `c0`:
      blocks take `c0 .. c0 + bh * bw - 1`, then lines and columns alternate. */
  function CellIds(c0: int, bh: int, bw: int, i: int, j: int): seq<int>
    requires bh >= 1 && bw >= 1
  {
    [c0 + BlockIndex(i, j, bh, bw), c0 + bh * bw + 2 * i, c0 + bh * bw + 2 * j + 1]
  }

  /** Two cells share a block id iff they are in the same block, a line id iff they are on
      the same line, and a column id iff they are in the same column; ids of different kinds
      never meet. */
  lemma CellIdsShared(c0: int, bh: int, bw: int, i: int, j: int, i2: int, j2: int)
    requires bh >= 1 && bw >= 1
    requires 0 <= i < bh * bw && 0 <= j < bh * bw && 0 <= i2 < bh * bw && 0 <= j2 < bh * bw
    ensures var a, b := CellIds(c0, bh, bw, i, j), CellIds(c0, bh, bw, i2, j2);
      && (a[0] == b[0] <==> i / bh == i2 / bh && j / bw == j2 / bw)
      && (a[1] == b[1] <==> i == i2)
      && (a[2] == b[2] <==> j == j2)
      && a[0] != b[1] && a[0] != b[2] && a[1] != b[2]
  {
    var n := bh * bw;
    var x, y := BlockIndex(i, j, bh, bw), BlockIndex(i2, j2, bh, bw);
    SameBlockIndex(i, j, i2, j2, bh, bw);
    BlockIndexInRange(i, j, bh, bw);
    var a, b := CellIds(c0, bh, bw, i, j), CellIds(c0, bh, bw, i2, j2);
    assert a == [c0 + x, c0 + n + 2 * i, c0 + n + 2 * j + 1];
    assert b == [c0 + y, c0 + n + 2 * i2, c0 + n + 2 * j2 + 1];
  }

  /** `String[] eltWithouti`, filled by the inner loop of `initRules`. */
  method OthersArray(size: int, i: int) returns (elts: array<string>)
    requires 1 <= i <= size
    ensures fresh(elts)
    ensures elts[..] == Others(size, i)
  {
    elts := new string[size - 1];
    var index := 0;
    var j := 1;
    OthersSpec(size, i);
    while j <= size
      invariant 1 <= j <= size + 1
      invariant index == |Others(j - 1, i)| <= elts.Length
      invariant elts[..index] == Others(j - 1, i)
    {
      OthersSpec(j - 1, i);
      OthersSpec(j, i);
      if j != i {
        elts[index] := IntToString(j);
        index := index + 1;
      }
      j := j + 1;
    }
    assert elts[..] == elts[..index];
  }

  class LegacyGrid {
    const size: int
    /** The constraint ids `[block, line, column]` of each cell. */
    const cells: array2<seq<int>>
    var idCounter: int
    var blockConstraints: array<int>
    var lineConstraints: array<int>
    var columnConstrains: array<int>

    /** `Grid(size)`: the shape from `primeFactors`, then the constraints numbered from 0.
        A size below 2 has no factors, and the source fails reading the first one. */
    constructor (size: int)
      requires size >= 2
      ensures this.size == size
      ensures cells.Length0 == size && cells.Length1 == size
      ensures var s := BlockShape(size);
        && |s| == 2 && s[0] >= 1 && s[1] >= 1 && s[0] * s[1] == size
        && idCounter == 3 * size
        && blockConstraints.Length == size && lineConstraints.Length == size && columnConstrains.Length == size
        && (forall i, j | 0 <= i < size && 0 <= j < size :: cells[i, j] == CellIds(0, s[0], s[1], i, j))
    {
      this.size := size;
      cells := new seq<int>[size, size];
      idCounter := 0;
      blockConstraints, lineConstraints, columnConstrains := new int[0], new int[0], new int[0];
      new;
      var factors := PrimeFactors(size);
      var blockHeight, blockWidth := factors[0], factors[1];
      var rules := InitRules();
      InitConstraints(blockHeight, blockWidth);
    }

    /** `initRules()`: each value "1" .. "size" mapped to the other values, ascending. */
    method InitRules() returns (rules: map<string, seq<string>>)
      ensures rules.Keys == SudokuClassics.Symbols(size)
      ensures forall i | 1 <= i <= size :: rules[IntToString(i)] == Others(size, i)
    {
      rules := map[];
      var i := 1;
      while i <= size
        invariant 1 <= i <= if size >= 1 then size + 1 else 1
        invariant rules == RulesUpTo(i - 1, size)
      {
        var eltWithouti := OthersArray(size, i);
        rules := rules[IntToString(i) := eltWithouti[..]];
        i := i + 1;
      }
      if size < 1 {
        assert RulesUpTo(0, size) == RulesUpTo(size, size);
      }
      RulesUpToSpec(size, size);
    }

    /** `initConstraints(blockHeight, blockWidth, rules)`, with the block index corrected:
        the blocks are numbered in row-major order from the counter, then each line and
        column in turn, and each cell is given the ids of its block, line and column. The
        block shape must multiply to the size; otherwise the source indexes the arrays out of
        range. */
    method InitConstraints(bh: int, bw: int)
      requires bh >= 1 && bw >= 1 && bh * bw == size
      requires cells.Length0 == size && cells.Length1 == size
      modifies this, cells
      ensures fresh(blockConstraints) && fresh(lineConstraints) && fresh(columnConstrains)
      ensures blockConstraints.Length == size && lineConstraints.Length == size && columnConstrains.Length == size
      ensures idCounter == old(idCounter) + 3 * size
      ensures forall k | 0 <= k < size :: blockConstraints[k] == old(idCounter) + k
      ensures forall i | 0 <= i < size :: lineConstraints[i] == old(idCounter) + size + 2 * i
      ensures forall i | 0 <= i < size :: columnConstrains[i] == old(idCounter) + size + 2 * i + 1
      ensures forall i, j | 0 <= i < size && 0 <= j < size :: cells[i, j] == CellIds(old(idCounter), bh, bw, i, j)
    {
      ghost var c0 := idCounter;
      blockConstraints := new int[bh * bw];
      lineConstraints := new int[size];
      columnConstrains := new int[size];
      NumberBlocks(bh, bw);
      NumberLines();
      FillCells(c0, bh, bw);
    }

    /** The nested loops numbering the blocks row by row. */
    method NumberBlocks(bh: int, bw: int)
      requires bh >= 1 && bw >= 1 && blockConstraints.Length == bh * bw
      modifies this, blockConstraints
      ensures blockConstraints == old(blockConstraints)
      ensures lineConstraints == old(lineConstraints) && columnConstrains == old(columnConstrains)
      ensures idCounter == old(idCounter) + bh * bw
      ensures forall k | 0 <= k < bh * bw :: blockConstraints[k] == old(idCounter) + k
    {
      var blockRow := 0;
      while blockRow < bh
        invariant 0 <= blockRow <= bh
        invariant blockConstraints == old(blockConstraints)
        invariant lineConstraints == old(lineConstraints) && columnConstrains == old(columnConstrains)
        invariant idCounter == old(idCounter) + blockRow * bw
        invariant forall k | 0 <= k < blockRow * bw :: blockConstraints[k] == old(idCounter) + k
      {
        MulLe(blockRow + 1, bh, bw);
        assert (blockRow + 1) * bw == blockRow * bw + bw;
        NumberBlockRow(blockRow, bh, bw);
        blockRow := blockRow + 1;
      }
    }

    /** The inner loop numbering the blocks of one block row. */
    method NumberBlockRow(blockRow: int, bh: int, bw: int)
      requires 0 <= blockRow < bh && bw >= 1 && blockConstraints.Length == bh * bw
      modifies this, blockConstraints
      ensures blockConstraints == old(blockConstraints)
      ensures lineConstraints == old(lineConstraints) && columnConstrains == old(columnConstrains)
      ensures idCounter == old(idCounter) + bw
      ensures forall k | 0 <= k < blockConstraints.Length :: blockConstraints[k] == if blockRow * bw <= k < blockRow * bw + bw then old(idCounter) + k - blockRow * bw else old(blockConstraints[k])
    {
      MulLe(blockRow + 1, bh, bw);
      assert (blockRow + 1) * bw == blockRow * bw + bw;
      var blockCol := 0;
      while blockCol < bw
        invariant 0 <= blockCol <= bw
        invariant blockConstraints == old(blockConstraints)
        invariant lineConstraints == old(lineConstraints) && columnConstrains == old(columnConstrains)
        invariant idCounter == old(idCounter) + blockCol
        invariant forall k | 0 <= k < blockConstraints.Length :: blockConstraints[k] == if blockRow * bw <= k < blockRow * bw + blockCol then old(idCounter) + k - blockRow * bw else old(blockConstraints[k])
      {
        blockConstraints[blockCol + blockRow * bw] := idCounter;
        idCounter := idCounter + 1;
        blockCol := blockCol + 1;
      }
    }

    /** The loop numbering line `i` and then column `i`, for each `i` in turn. */
    method NumberLines()
      requires lineConstraints.Length == size && columnConstrains.Length == size
      requires lineConstraints != columnConstrains
      modifies this, lineConstraints, columnConstrains
      ensures blockConstraints == old(blockConstraints)
      ensures lineConstraints == old(lineConstraints) && columnConstrains == old(columnConstrains)
      ensures idCounter == old(idCounter) + 2 * size
      ensures forall i | 0 <= i < size :: lineConstraints[i] == old(idCounter) + 2 * i
      ensures forall i | 0 <= i < size :: columnConstrains[i] == old(idCounter) + 2 * i + 1
    {
      var i := 0;
      while i < size
        invariant 0 <= i <= if size >= 0 then size else 0
        invariant blockConstraints == old(blockConstraints)
        invariant lineConstraints == old(lineConstraints) && columnConstrains == old(columnConstrains)
        invariant idCounter == old(idCounter) + 2 * i
        invariant forall k | 0 <= k < i :: lineConstraints[k] == old(idCounter) + 2 * k
        invariant forall k | 0 <= k < i :: columnConstrains[k] == old(idCounter) + 2 * k + 1
      {
        lineConstraints[i] := idCounter;
        idCounter := idCounter + 1;
        columnConstrains[i] := idCounter;
        idCounter := idCounter + 1;
        i := i + 1;
      }
    }

    /** The nested loops giving each cell its ids, line by line. */
    method FillCells(ghost c0: int, bh: int, bw: int)
      requires bh >= 1 && bw >= 1 && bh * bw == size
      requires cells.Length0 == size && cells.Length1 == size
      requires blockConstraints.Length == size && lineConstraints.Length == size && columnConstrains.Length == size
      requires forall k | 0 <= k < size :: blockConstraints[k] == c0 + k
      requires forall k | 0 <= k < size :: lineConstraints[k] == c0 + size + 2 * k
      requires forall k | 0 <= k < size :: columnConstrains[k] == c0 + size + 2 * k + 1
      modifies cells
      ensures forall i, j | 0 <= i < size && 0 <= j < size :: cells[i, j] == CellIds(c0, bh, bw, i, j)
    {
      var i := 0;
      while i < size
        invariant 0 <= i <= size
        invariant forall r, j | 0 <= r < i && 0 <= j < size :: cells[r, j] == CellIds(c0, bh, bw, r, j)
      {
        FillCellRow(i, c0, bh, bw);
        i := i + 1;
      }
    }

    /** The inner loop giving the cells of line `i` their ids. */
    method FillCellRow(i: int, ghost c0: int, bh: int, bw: int)
      requires bh >= 1 && bw >= 1 && bh * bw == size && 0 <= i < size
      requires cells.Length0 == size && cells.Length1 == size
      requires blockConstraints.Length == size && lineConstraints.Length == size && columnConstrains.Length == size
      requires forall k | 0 <= k < size :: blockConstraints[k] == c0 + k
      requires forall k | 0 <= k < size :: lineConstraints[k] == c0 + size + 2 * k
      requires forall k | 0 <= k < size :: columnConstrains[k] == c0 + size + 2 * k + 1
      modifies cells
      ensures forall r, j | 0 <= r < size && 0 <= j < size :: cells[r, j] == if r == i then CellIds(c0, bh, bw, r, j) else old(cells[r, j])
    {
      var j := 0;
      while j < size
        invariant 0 <= j <= size
        invariant forall r, q | 0 <= r < size && 0 <= q < size :: cells[r, q] == if r == i && q < j then CellIds(c0, bh, bw, r, q) else old(cells[r, q])
      {
        BlockIndexInRange(i, j, bh, bw);
        var blockIndex := (i / bh) * bh + j / bw;
        cells[i, j] := [blockConstraints[blockIndex], lineConstraints[i], columnConstrains[j]];
        j := j + 1;
      }
    }
  }
}
