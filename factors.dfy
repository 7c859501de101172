/**
 * The factorisation step shared by `SudokuClassic.primeFactors` and the legacy
 * `Grid.primeFactors`: trial division, then folding the list of factors down to a pair by
 * repeatedly replacing its two leading entries with their product, then padding a lone
 * factor with 1. The pair is the block shape of a classic Sudoku.
 */
module Factors {
  import opened Lists

  function Product(s: seq<int>): int {
    if s == [] then 1 else s[0] * Product(s[1..])
  }

  predicate AtLeast(s: seq<int>, lo: int) {
    forall i :: 0 <= i < |s| ==> s[i] >= lo
  }

  predicate IsPrime(p: int) {
    p >= 2 && forall d :: 2 <= d < p ==> p % d != 0
  }

  lemma MulLe(a: int, b: int, c: int)
    requires a <= b && c >= 0
    ensures a * c <= b * c
  {
  }

  /** A divisor candidate whose square fits is smaller than the number. */
  lemma SquareBound(i: int, n: int)
    requires i >= 2 && i * i <= n
    ensures 2 * i <= n && i < n
  {
    MulLe(2, i, i);
  }

  /** Dividing a positive number by at least 2 makes it smaller. */
  lemma DivShrinks(n: int, i: int)
    requires i >= 2 && n >= 1
    ensures 0 <= n / i < n
  {
    var q, r := n / i, n % i;
    assert n == q * i + r && 0 <= r < i;
    if q >= n {
      MulLe(n, q, i);
      MulLe(2, i, n);
    }
    if q < 0 {
      MulLe(q, -1, i);
    }
  }

  lemma MulAssociative(a: int, b: int, c: int)
    ensures (a * b) * c == a * (b * c)
  {
  }

  lemma MulExchange(a: int, b: int, c: int)
    ensures a * (b * c) == b * (a * c)
  {
  }

  /** A positive multiple of `i` is `i` times a positive number smaller than itself. */
  lemma DivExact(n: int, i: int)
    requires i >= 2 && n >= 1 && n % i == 0
    ensures n == (n / i) * i && 1 <= n / i < n
  {
    DivShrinks(n, i);
    var q := n / i;
    assert n == q * i + n % i;
    if q <= 0 {
      MulLe(q, 0, i);
    }
  }

  /** One round of the inner loop. */
  lemma StripStep(number: int, i: int)
    requires i >= 2 && number >= 1 && number % i == 0
    ensures 1 <= number / i < number
    ensures Strip(number, i) == ([i] + Strip(number / i, i).0, Strip(number / i, i).1)
  {
    DivExact(number, i);
  }

  /** One round of the outer loop. */
  lemma TrialStep(number: int, i: int)
    requires i >= 2 && i * i <= number
    ensures number >= 1
    ensures TrialFrom(number, i) == Strip(number, i).0 + TrialFrom(Strip(number, i).1, i + 1)
  {
    SquareBound(i, number);
  }

  /** The inner `while (number % i == 0)` loop: the copies of `i` divided out of `number`,
      and what is left of it. */
  function Strip(number: int, i: int): (r: (seq<int>, int))
    requires i >= 2 && number >= 1
    ensures 1 <= r.1 <= number
    decreases number
  {
    if number % i == 0 then
      DivExact(number, i);
      var rest := Strip(number / i, i);
      ([i] + rest.0, rest.1)
    else ([], number)
  }

  /** The factors the outer loop, from candidate `i` on, finds in `number`, followed by the
      remainder when it exceeds 1. The loop bound `i <= Math.sqrt(number)` of the source is
      `i * i <= number` on integers. */
  function TrialFrom(number: int, i: int): seq<int>
    requires i >= 2
    decreases if number > 0 then number else 0, number - i
  {
    if i * i > number then (if number > 1 then [number] else [])
    else
      SquareBound(i, number);
      var stripped := Strip(number, i);
      stripped.0 + TrialFrom(stripped.1, i + 1)
  }

  /** Trial division of `n` from 2 up. */
  function Factorization(n: int): seq<int> {
    TrialFrom(n, 2)
  }

  /** The `while (factors.size() > 2)` loop: the two leading factors are replaced by their
      product, appended at the end. */
  function CombineLeading(s: seq<int>): seq<int>
    decreases |s|
  {
    if |s| > 2 then CombineLeading(s[2..] + [s[0] * s[1]]) else s
  }

  /** A lone factor gets 1 as partner. */
  function PadPair(s: seq<int>): seq<int> {
    if |s| == 1 then s + [1] else s
  }

  /** Every stripped factor is `i`, and together with the remainder they make up the number. */
  lemma {:induction false} StripSpec(number: int, i: int)
    requires i >= 2 && number >= 1
    ensures forall k :: 0 <= k < |Strip(number, i).0| ==> Strip(number, i).0[k] == i
    ensures Product(Strip(number, i).0) * Strip(number, i).1 == number
    ensures Strip(number, i).1 % i != 0
    decreases number
  {
    if number % i == 0 {
      StripStep(number, i);
      var q := number / i;
      DivExact(number, i);
      StripSpec(q, i);
      var rest := Strip(q, i);
      var p, m := Product(rest.0), rest.1;
      assert ([i] + rest.0)[1..] == rest.0;
      assert Product([i] + rest.0) == i * p;
      assert p * m == q;
      MulAssociative(i, p, m);
    }
  }

  /** Trial division finds factors of at least 2 that multiply to the number; nothing at all
      for numbers below 2. */
  lemma {:induction false} TrialFromFactors(number: int, i: int)
    requires i >= 2
    ensures number >= 1 ==> Product(TrialFrom(number, i)) == number
    ensures AtLeast(TrialFrom(number, i), 2)
    ensures number <= 1 <==> TrialFrom(number, i) == []
    decreases if number > 0 then number else 0, number - i
  {
    if i * i > number {
      if number > 1 {
        assert Product([number]) == number * Product([]);
      }
    } else {
      SquareBound(i, number);
      var stripped := Strip(number, i);
      StripSpec(number, i);
      TrialFromFactors(stripped.1, i + 1);
      var rest := TrialFrom(stripped.1, i + 1);
      ProductAppend(stripped.0, rest);
      assert TrialFrom(number, i) == stripped.0 + rest;
      if stripped.0 == [] {
        assert stripped.1 == number;
      }
    }
  }

  /** A prime has itself as its only trial-division factor. */
  lemma {:induction false} TrialFromPrime(p: int, i: int)
    requires IsPrime(p) && 2 <= i
    ensures TrialFrom(p, i) == [p]
    decreases p - i
  {
    if i * i <= p {
      SquareBound(i, p);
      assert p % i != 0;
      TrialFromPrime(p, i + 1);
    }
  }

  lemma ProductAppend(a: seq<int>, b: seq<int>)
    ensures Product(a + b) == Product(a) * Product(b)
  {
    if a != [] {
      assert (a + b)[1..] == a[1..] + b;
      ProductAppend(a[1..], b);
    } else {
      assert a + b == b;
    }
  }

  /** Reordering the factors does not change their product. */
  lemma ProductSplitAt(b: seq<int>, j: int)
    requires 0 <= j < |b|
    ensures Product(b) == Product(b[..j]) * (b[j] * Product(b[j + 1..]))
  {
    var tail := [b[j]] + b[j + 1..];
    assert b == b[..j] + tail;
    ProductAppend(b[..j], tail);
    assert tail[1..] == b[j + 1..];
  }

  lemma ProductRemoveAt(b: seq<int>, j: int)
    requires 0 <= j < |b|
    ensures Product(b[..j] + b[j + 1..]) == Product(b[..j]) * Product(b[j + 1..])
    ensures multiset(b[..j] + b[j + 1..]) == multiset(b) - multiset{b[j]}
  {
    ProductAppend(b[..j], b[j + 1..]);
    assert b == b[..j] + [b[j]] + b[j + 1..];
  }

  /** Reordering the factors does not change their product. */
  lemma {:induction false} ProductPermutation(a: seq<int>, b: seq<int>)
    requires multiset(a) == multiset(b)
    ensures Product(a) == Product(b)
    decreases |a|
  {
    if a != [] {
      assert a[0] in multiset(b);
      var j :| 0 <= j < |b| && b[j] == a[0];
      var rest := b[..j] + b[j + 1..];
      ProductRemoveAt(b, j);
      assert a == [a[0]] + a[1..];
      assert multiset(a[1..]) == multiset(a) - multiset{a[0]};
      ProductPermutation(a[1..], rest);
      ProductSplitAt(b, j);
      MulExchange(a[0], Product(b[..j]), Product(b[j + 1..]));
    }
  }

  /** Folding to a pair keeps the product, keeps every entry at least 1, and leaves at most
      two entries (exactly two when there were at least two). */
  lemma {:induction false} CombineLeadingSpec(s: seq<int>)
    requires AtLeast(s, 1)
    ensures Product(CombineLeading(s)) == Product(s)
    ensures AtLeast(CombineLeading(s), 1)
    ensures |CombineLeading(s)| == if |s| > 2 then 2 else |s|
    decreases |s|
  {
    if |s| > 2 {
      var t := s[2..] + [s[0] * s[1]];
      assert s[0] * s[1] >= 1 by {
        assert s[0] >= 1 && s[1] >= 1;
      }
      CombineLeadingSpec(t);
      ProductAppend(s[2..], [s[0] * s[1]]);
      assert Product([s[0] * s[1]]) == s[0] * s[1];
      assert s[1..][1..] == s[2..];
      assert Product(s) == s[0] * (s[1] * Product(s[2..]));
    }
  }

  /** Every entry of a reordering of a list of numbers at least `lo` is at least `lo`. */
  lemma AtLeastPermutation(a: seq<int>, b: seq<int>, lo: int)
    requires multiset(a) == multiset(b) && AtLeast(b, lo)
    ensures AtLeast(a, lo) && |a| == |b|
  {
    assert |a| == |multiset(a)| == |b|;
    forall i | 0 <= i < |a|
      ensures a[i] >= lo
    {
      assert a[i] in multiset(b);
    }
  }

  /** A list of at most two entries: padding it to a pair keeps its product. */
  lemma PadPairProduct(c: seq<int>)
    requires 1 <= |c| <= 2
    ensures |PadPair(c)| == 2 && PadPair(c)[0] * PadPair(c)[1] == Product(c)
  {
    if |c| == 1 {
      assert Product(c) == c[0] * Product([]);
      assert PadPair(c) == [c[0], 1];
    } else {
      assert c[1..][1..] == [];
      assert Product(c) == c[0] * (c[1] * Product([]));
    }
  }

  /** The pair a classic Sudoku of size `n` takes its block shape from, for any order the
      factors were put in: two positive numbers multiplying to `n` when `n >= 2`, nothing
      otherwise. */
  lemma FactorPairSpec(n: int, shuffled: seq<int>)
    requires multiset(shuffled) == multiset(Factorization(n))
    ensures n <= 1 ==> PadPair(CombineLeading(shuffled)) == []
    ensures n >= 2 ==> var r := PadPair(CombineLeading(shuffled));
                       |r| == 2 && r[0] >= 1 && r[1] >= 1 && r[0] * r[1] == n
  {
    TrialFromFactors(n, 2);
    AtLeastPermutation(shuffled, Factorization(n), 2);
    ProductPermutation(shuffled, Factorization(n));
    if n >= 2 {
      CombineLeadingSpec(shuffled);
      var c := CombineLeading(shuffled);
      PadPairProduct(c);
    }
  }

  /** For a prime, the pair is the prime and 1. */
  lemma PrimePair(p: int, shuffled: seq<int>)
    requires IsPrime(p) && multiset(shuffled) == multiset(Factorization(p))
    ensures PadPair(CombineLeading(shuffled)) == [p, 1]
  {
    TrialFromPrime(p, 2);
    assert |shuffled| == 1;
    assert shuffled[0] in multiset([p]);
  }

  predicate Ascending(s: seq<int>) {
    forall a, b :: 0 <= a < b < |s| ==> s[a] <= s[b]
  }

  /** No number from 2 up to `i - 1` divides `n`. */
  predicate NoFactorBelow(n: int, i: int) {
    forall d :: 2 <= d < i ==> n % d != 0
  }

  /** A multiple of `d` leaves no remainder. */
  lemma ModOfMultiple(k: int, d: int)
    requires d >= 1
    ensures (k * d) % d == 0
  {
    var q, m := (k * d) / d, (k * d) % d;
    assert k * d == q * d + m && 0 <= m < d;
    assert (k - q) * d == m;
    if k - q >= 1 {
      MulLe(1, k - q, d);
    } else if k - q <= -1 {
      MulLe(k - q, -1, d);
    }
  }

  /** A divisor of a divisor of `n` divides `n`. */
  lemma DivisorOfDivisor(n: int, p: int, r: int, d: int)
    requires d >= 1 && n == p * r && r % d == 0
    ensures n % d == 0
  {
    var q := r / d;
    assert r == q * d;
    MulAssociative(p, q, d);
    ModOfMultiple(p * q, d);
  }

  /** Trial division from `i` on, started on a number with no factor below `i`, finds its
      factors in ascending order, none below `i`. */
  lemma {:induction false} TrialFromAscending(number: int, i: int)
    requires i >= 2 && number >= 1 && NoFactorBelow(number, i)
    ensures Ascending(TrialFrom(number, i)) && AtLeast(TrialFrom(number, i), i)
    decreases number, number - i
  {
    if i * i <= number {
      SquareBound(i, number);
      var stripped := Strip(number, i);
      StripSpec(number, i);
      var r := stripped.1;
      forall d | 2 <= d < i + 1
        ensures r % d != 0
      {
        if d < i && r % d == 0 {
          DivisorOfDivisor(number, Product(stripped.0), r, d);
        }
      }
      TrialFromAscending(r, i + 1);
      var rest := TrialFrom(r, i + 1);
      assert TrialFrom(number, i) == stripped.0 + rest;
    } else if number > 1 {
      assert number % number == 0;
      assert TrialFrom(number, i) == [number];
    }
  }

  /** `Factorization` lists the prime factors in ascending order. */
  lemma FactorizationAscending(n: int)
    requires n >= 1
    ensures Ascending(Factorization(n))
  {
    TrialFromAscending(n, 2);
  }

  /** Trial division from 2 up to a sqrt bound, as written in the source. */
  method TrialDivision(n: int) returns (factors: seq<int>)
    ensures factors == Factorization(n)
  {
    factors := [];
    var number := n;
    var i := 2;
    while i * i <= number
      invariant i >= 2
      invariant factors + TrialFrom(number, i) == Factorization(n)
      decreases if number > 0 then number else 0, number - i
    {
      TrialStep(number, i);
      SquareBound(i, number);
      ghost var start := number;
      ghost var remainder := Strip(number, i).1;
      AppendAssociative(factors, Strip(number, i).0, TrialFrom(remainder, i + 1));
      while number % i == 0
        invariant 1 <= number <= start
        invariant Strip(number, i).1 == remainder
        invariant factors + Strip(number, i).0 + TrialFrom(remainder, i + 1) == Factorization(n)
        decreases number
      {
        StripStep(number, i);
        AppendAssociative(factors, [i], Strip(number / i, i).0);
        factors := factors + [i];
        number := number / i;
      }
      assert Strip(number, i).0 == [];
      assert factors + TrialFrom(number, i + 1) == Factorization(n);
      i := i + 1;
    }
    if number > 1 {
      factors := factors + [number];
    }
  }

  /** The combining loop of the source, on a list. */
  method Combine(s: seq<int>) returns (factors: seq<int>)
    ensures factors == CombineLeading(s)
  {
    factors := s;
    while |factors| > 2
      invariant CombineLeading(factors) == CombineLeading(s)
      decreases |factors|
    {
      var a := factors[0];
      var b := factors[1];
      factors := factors[2..] + [a * b];
    }
  }
}
