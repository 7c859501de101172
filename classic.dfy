/**
 * The static half of `sudoku.sudoku.SudokuClassic`: the block shape taken from the size
 * (`primeFactors`), the alphabet "1".."size" (`generateSymbols`), and the block layout the
 * constructor lays out, with the proof that the blocks tile the square. The constructor
 * itself is `Sudokus.Sudoku.Classic`.
 */
module SudokuClassics {
  import opened Positions
  import opened Rules
  import opened Text
  import opened Factors

  /** The square `[0, size)²` of a zone. */
  function Square(size: int): set<Position> {
    Rect(0, size - 1, 0, size - 1)
  }

  /** `Collections.shuffle`: some permutation of the list. */
  method Shuffle<T>(s: seq<T>) returns (r: seq<T>)
    ensures multiset(r) == multiset(s)
  {
    r := [];
    var rest := s;
    while rest != []
      invariant multiset(r) + multiset(rest) == multiset(s)
      decreases |rest|
    {
      var k :| 0 <= k < |rest|;
      assert rest == rest[..k] + [rest[k]] + rest[k + 1..];
      r := r + [rest[k]];
      rest := rest[..k] + rest[k + 1..];
    }
  }

  /** `primeFactors(number)`: the prime factors by trial division, shuffled, folded down to
      two, and padded with 1. For a size of at least 2 this is two positive numbers whose
      product is the size, in no fixed order; a prime gives the prime and 1; nothing is
      returned for a number below 2. */
  method PrimeFactors(number: int) returns (factors: seq<int>)
    ensures number <= 1 ==> factors == []
    ensures number >= 2 ==> |factors| == 2 && factors[0] >= 1 && factors[1] >= 1 && factors[0] * factors[1] == number
    ensures IsPrime(number) ==> factors == [number, 1]
  {
    var found := TrialDivision(number);
    var shuffled := Shuffle(found);
    FactorPairSpec(number, shuffled);
    if IsPrime(number) {
      PrimePair(number, shuffled);
    }
    factors := Combine(shuffled);
    if |factors| == 1 {
      factors := factors + [1];
    }
  }

  /** The symbols "1" .. "size". */
  function Symbols(size: int): set<string> {
    set i | 1 <= i <= size :: IntToString(i)
  }

  /** One more number, one more symbol. */
  lemma SymbolsGrow(n: int)
    requires n >= 1
    ensures Symbols(n) == Symbols(n - 1) + {IntToString(n)}
    ensures IntToString(n) !in Symbols(n - 1)
  {
    forall i | 1 <= i <= n - 1
      ensures IntToString(i) != IntToString(n)
    {
      IntToStringInjective(i, n);
    }
  }

  /** Distinct numbers give distinct symbols, so there are exactly `size` of them (none for a
      size below 1): the zone's check that it has at least `size` symbols always passes. */
  lemma {:induction false} SymbolsCount(size: int)
    ensures |Symbols(size)| == if size > 0 then size else 0
  {
    if size <= 0 {
      assert forall s :: s !in Symbols(size);
      assert Symbols(size) == {};
    } else {
      SymbolsGrow(size);
      SymbolsCount(size - 1);
    }
  }

  /** `generateSymbols(size)`. */
  method GenerateSymbols(size: int) returns (symbols: set<string>)
    ensures symbols == Symbols(size)
    ensures |symbols| == if size > 0 then size else 0
  {
    symbols := {};
    var i := 1;
    while i <= size
      invariant 1 <= i <= if size >= 1 then size + 1 else 1
      invariant symbols == Symbols(i - 1)
    {
      SymbolsGrow(i);
      symbols := symbols + {IntToString(i)};
      i := i + 1;
    }
    if size < 1 {
      SymbolsCount(size);
      SymbolsCount(0);
    }
    SymbolsCount(size);
  }

  /** Block `x` of block row `y` for the block shape `[f0, f1]`: blocks are `f1` wide and
      `f0` high. */
  function BlockRect(f0: int, f1: int, x: int, y: int): set<Position> {
    Rect(x * f1, x * f1 + f1 - 1, y * f0, y * f0 + f0 - 1)
  }

  /** The `k`-th block rule the constructor adds: the blocks are laid out row by row, `f0`
      to a row. */
  function BlockAt(f0: int, f1: int, k: int): set<Position>
    requires f0 >= 1
  {
    BlockRect(f0, f1, k % f0, k / f0)
  }

  /** Euclidean division pinned down by bounds. */
  lemma DivPin(a: int, b: int, x: int)
    requires b >= 1 && x * b <= a < x * b + b
    ensures a / b == x && a % b == a - x * b
  {
    var d, r := a / b, a % b;
    assert a == d * b + r && 0 <= r < b;
    if d > x {
      MulLe(x + 1, d, b);
      assert false;
    }
    if d < x {
      MulLe(d + 1, x, b);
      assert false;
    }
  }

  /** The quotient of a coordinate of the square by a side of the block, and its bounds. */
  lemma Quotient(qx: int, f1: int, f0: int)
    requires f0 >= 1 && f1 >= 1 && 0 <= qx < f0 * f1
    ensures 0 <= qx / f1 < f0
    ensures (qx / f1) * f1 <= qx <= (qx / f1) * f1 + f1 - 1
  {
    var d := qx / f1;
    assert qx == d * f1 + qx % f1;
    if d >= f0 {
      MulLe(f0, d, f1);
      assert false;
    }
  }

  /** Block `x` of row `y` is the block at index `y * f0 + x`. */
  lemma IndexOfBlock(f0: int, f1: int, x: int, y: int)
    requires f0 >= 1 && f1 >= 1 && 0 <= x < f0 && 0 <= y < f1
    ensures 0 <= y * f0 + x < f0 * f1
    ensures (y * f0 + x) % f0 == x && (y * f0 + x) / f0 == y
  {
    DivPin(y * f0 + x, f0, y);
    MulLe(y + 1, f1, f0);
    assert (y + 1) * f0 == y * f0 + f0;
  }

  /** A block index names a block of the layout. */
  lemma BlockOfIndex(f0: int, f1: int, k: int)
    requires f0 >= 1 && f1 >= 1 && 0 <= k < f0 * f1
    ensures 0 <= k % f0 < f0 && 0 <= k / f0 < f1
  {
    var x, y := k % f0, k / f0;
    assert k == y * f0 + x;
    if y >= f1 {
      MulLe(f1, y, f0);
      assert false;
    }
  }

  /** A block of the layout lies in the square and has `f0 * f1` cells. */
  lemma BlockRectInside(f0: int, f1: int, x: int, y: int)
    requires f0 >= 1 && f1 >= 1 && 0 <= x < f0 && 0 <= y < f1
    ensures BlockRect(f0, f1, x, y) <= Square(f0 * f1)
    ensures |BlockRect(f0, f1, x, y)| == f0 * f1
  {
    var n := f0 * f1;
    var x0, y0 := x * f1, y * f0;
    MulLe(x + 1, f0, f1);
    MulLe(y + 1, f1, f0);
    assert 0 <= x0 && x0 + f1 <= n by {
      assert (x + 1) * f1 == x0 + f1;
    }
    assert 0 <= y0 && y0 + f0 <= n by {
      assert (y + 1) * f0 == y0 + f0;
      assert f1 * f0 == n;
    }
    RectInSquare(x0, x0 + f1 - 1, y0, y0 + f0 - 1, n);
    RectSize(x0, x0 + f1 - 1, y0, y0 + f0 - 1);
  }

  /** A rectangle inside `[0, n)` on both axes lies in the square of side `n`. */
  lemma RectInSquare(x0: int, x1: int, y0: int, y1: int, n: int)
    requires 0 <= x0 && x1 < n && 0 <= y0 && y1 < n
    ensures Rect(x0, x1, y0, y1) <= Square(n)
  {
    forall q | q in Rect(x0, x1, y0, y1)
      ensures q in Square(n)
    {
      RectMembers(x0, x1, y0, y1, q);
      RectMembers(0, n - 1, 0, n - 1, q);
    }
  }

  /** Every block lies in the square and has `f0 * f1` cells. */
  lemma BlockInside(f0: int, f1: int, k: int)
    requires f0 >= 1 && f1 >= 1 && 0 <= k < f0 * f1
    ensures BlockAt(f0, f1, k) <= Square(f0 * f1)
    ensures |BlockAt(f0, f1, k)| == f0 * f1
  {
    BlockOfIndex(f0, f1, k);
    BlockRectInside(f0, f1, k % f0, k / f0);
  }

  /** The numbers of block rows and of blocks per row are the two factors. */
  lemma ShapeDivides(f0: int, f1: int)
    requires f0 >= 1 && f1 >= 1
    ensures (f0 * f1) / f0 == f1 && (f0 * f1) / f1 == f0
  {
    DivPin(f0 * f1, f0, f1);
    assert f0 * f1 == f1 * f0;
    DivPin(f0 * f1, f1, f0);
  }

  /** All the blocks of the layout lie in the square and have `f0 * f1` cells each. */
  lemma BlocksInside(f0: int, f1: int)
    requires f0 >= 1 && f1 >= 1
    ensures forall k | 0 <= k < f0 * f1 :: BlockAt(f0, f1, k) <= Square(f0 * f1) && |BlockAt(f0, f1, k)| == f0 * f1
  {
    forall k | 0 <= k < f0 * f1
      ensures BlockAt(f0, f1, k) <= Square(f0 * f1) && |BlockAt(f0, f1, k)| == f0 * f1
    {
      BlockInside(f0, f1, k);
    }
  }

  /** A position of the block `(x, y)` has `x` and `y` as the quotients of its coordinates. */
  lemma InBlockRect(f0: int, f1: int, x: int, y: int, q: Position)
    requires f0 >= 1 && f1 >= 1 && q in BlockRect(f0, f1, x, y)
    ensures q.x / f1 == x && q.y / f0 == y
  {
    RectMembers(x * f1, x * f1 + f1 - 1, y * f0, y * f0 + f0 - 1, q);
    DivPin(q.x, f1, x);
    DivPin(q.y, f0, y);
  }

  /** The blocks tile the square: each position of it lies in the block at index
      `(q.y / f0) * f0 + q.x / f1`, and in no other. */
  lemma BlocksTile(f0: int, f1: int, q: Position)
    requires f0 >= 1 && f1 >= 1 && q in Square(f0 * f1)
    ensures 0 <= (q.y / f0) * f0 + q.x / f1 < f0 * f1
    ensures q in BlockAt(f0, f1, (q.y / f0) * f0 + q.x / f1)
    ensures forall k | 0 <= k < f0 * f1 && q in BlockAt(f0, f1, k) :: k == (q.y / f0) * f0 + q.x / f1
  {
    RectMembers(0, f0 * f1 - 1, 0, f0 * f1 - 1, q);
    var x, y := q.x / f1, q.y / f0;
    Quotient(q.x, f1, f0);
    Quotient(q.y, f0, f1);
    IndexOfBlock(f0, f1, x, y);
    RectMembers(x * f1, x * f1 + f1 - 1, y * f0, y * f0 + f0 - 1, q);
    forall k | 0 <= k < f0 * f1 && q in BlockAt(f0, f1, k)
      ensures k == y * f0 + x
    {
      BlockOfPosition(f0, f1, k, q);
    }
  }

  /** The block holding `q` is the one its coordinates name. */
  lemma BlockOfPosition(f0: int, f1: int, k: int, q: Position)
    requires f0 >= 1 && f1 >= 1 && q in BlockAt(f0, f1, k)
    ensures k == (q.y / f0) * f0 + q.x / f1
  {
    InBlockRect(f0, f1, k % f0, k / f0, q);
    assert k == (k / f0) * f0 + k % f0;
  }
}
