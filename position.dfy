/**
 * Grid coordinates. The pure operations of the Java `Position` class work on the value
 * type `Position`; its mutators (`addi`, `addXi`, `addYi`, `setX`, `setY`) work on the
 * heap object `MutablePosition`, whose `Value()` is the coordinate it currently holds.
 */
module Positions {
  import opened Text
  import opened Lists

  /** Java `int` range, used where the source's 32-bit arithmetic is observable. */
  const TwoTo31: int := 0x8000_0000
  const TwoTo32: int := 0x1_0000_0000

  /** Two's-complement truncation of an integer to a Java `int`. */
  function Wrap32(v: int): (r: int)
    ensures -TwoTo31 <= r < TwoTo31
    ensures (r - v) % TwoTo32 == 0
  {
    (v + TwoTo31) % TwoTo32 - TwoTo31
  }

  function MaxInt(a: int, b: int): int { if a >= b then a else b }
  function MinInt(a: int, b: int): int { if a <= b then a else b }

  datatype Position = Position(x: int, y: int) {

    /** `add(Position)`: component-wise sum. */
    function Add(other: Position): (r: Position)
      ensures r.x - x == other.x && r.y - y == other.y
    {
      Position(x + other.x, y + other.y)
    }

    /** `addX(int)`. */
    function AddX(dx: int): (r: Position)
      ensures r.x - x == dx && r.y == y
    {
      Position(x + dx, y)
    }

    /** `addY(int)`. */
    function AddY(dy: int): (r: Position)
      ensures r.x == x && r.y - y == dy
    {
      Position(x, y + dy)
    }

    /** `add(int)`: the same amount on both coordinates. */
    function AddBoth(z: int): (r: Position)
      ensures r.x - x == z && r.y - y == z
    {
      Position(x + z, y + z)
    }

    /** `max(Position)`: the smallest position dominating both. */
    function Max(other: Position): (r: Position)
      ensures r.x >= x && r.x >= other.x && (r.x == x || r.x == other.x)
      ensures r.y >= y && r.y >= other.y && (r.y == y || r.y == other.y)
    {
      Position(MaxInt(x, other.x), MaxInt(y, other.y))
    }

    /** `min(Position)`: the largest position dominated by both. */
    function Min(other: Position): (r: Position)
      ensures r.x <= x && r.x <= other.x && (r.x == x || r.x == other.x)
      ensures r.y <= y && r.y <= other.y && (r.y == y || r.y == other.y)
    {
      Position(MinInt(x, other.x), MinInt(y, other.y))
    }

    /** `negative()`. */
    function Negative(): (r: Position)
      ensures Add(r) == Position(0, 0) && r.Add(this) == Position(0, 0)
    {
      Position(-x, -y)
    }

    /** `toString()`: "(x,y)", bracketed. */
    function ToString(): (s: string)
      ensures |s| >= 5 && s[0] == '(' && s[|s| - 1] == ')'
    {
      "(" + IntToString(x) + "," + IntToString(y) + ")"
    }

    /** `hashCode()`: `Objects.hash(x, y)`, that is `31 * (31 + x) + y` in 32-bit arithmetic. */
    function HashCode(): (h: int)
      ensures -TwoTo31 <= h < TwoTo31
    {
      Wrap32(31 * (31 + x) + y)
    }
  }

  /** `new Position(z)`. */
  function Uniform(z: int): (p: Position)
    ensures p.x == z && p.y == z
  {
    Position(z, z)
  }

  /** The single-axis and diagonal shifts are the general addition with one vector. */
  lemma ShiftsAreAdditions(p: Position, d: int)
    ensures p.AddX(d) == p.Add(Position(d, 0))
    ensures p.AddY(d) == p.Add(Position(0, d))
    ensures p.AddBoth(d) == p.Add(Uniform(d))
  {
  }

  /** Addition is a commutative group with `Negative` as inverse. */
  lemma AddGroup(p: Position, q: Position, r: Position)
    ensures p.Add(q) == q.Add(p)
    ensures p.Add(q).Add(r) == p.Add(q.Add(r))
    ensures p.Add(Position(0, 0)) == p
    ensures p.Add(p.Negative()) == Position(0, 0)
    ensures p.Negative().Negative() == p
  {
  }

  /** `min` and `max` bracket both operands. */
  lemma MinMaxBracket(p: Position, q: Position)
    ensures p.Min(q) == q.Min(p) && p.Max(q) == q.Max(p)
    ensures p.Min(q).x <= p.Max(q).x && p.Min(q).y <= p.Max(q).y
  {
  }

  lemma IntTextHasNoComma(z: int)
    ensures ',' !in IntToString(z)
  {
    if z < 0 {
      assert IntToString(z) == "-" + NatToString(-z);
    }
  }

  /** In text whose left part has no comma, the first comma sits right after that part. */
  lemma {:induction false} FirstComma(a: string, c: string)
    requires ',' !in a
    ensures IndexOf(a + [','] + c, ',') == |a|
  {
    if a != [] {
      assert (a + [','] + c)[1..] == a[1..] + [','] + c;
      FirstComma(a[1..], c);
    }
  }

  /** Text split at its only comma determines both sides. */
  lemma CommaSplit(a: string, c: string, b: string, d: string)
    requires ',' !in a && ',' !in b
    requires a + [','] + c == b + [','] + d
    ensures a == b && c == d
  {
    var s := a + [','] + c;
    FirstComma(a, c);
    FirstComma(b, d);
    assert a == s[..|a|] == b;
    assert c == s[|a| + 1..] == d;
  }

  lemma Unbracket(a: string, c: string)
    ensures var s := "(" + a + "," + c + ")"; s[1..|s| - 1] == a + [','] + c
  {
  }

  /** The text of a position reads back: between the opening bracket and the first comma
      stands the text of `x`, and from there to the closing bracket the text of `y`. */
  lemma ToStringParses(p: Position)
    ensures var s, c := p.ToString(), IndexOf(p.ToString(), ',');
            c == |IntToString(p.x)| + 1 && s[1..c] == IntToString(p.x) && s[c + 1..|s| - 1] == IntToString(p.y)
  {
    var a, b := IntToString(p.x), IntToString(p.y);
    IntTextHasNoComma(p.x);
    FirstComma("(" + a, b + ")");
    assert p.ToString() == ("(" + a) + [','] + (b + ")");
  }

  /** `toString` agrees with `equals`: two positions print alike exactly when they are equal. */
  lemma ToStringInjective(p: Position, q: Position)
    ensures p.ToString() == q.ToString() <==> p == q
  {
    var a, c := IntToString(p.x), IntToString(p.y);
    var b, d := IntToString(q.x), IntToString(q.y);
    if p.ToString() == q.ToString() {
      IntTextHasNoComma(p.x);
      IntTextHasNoComma(q.x);
      Unbracket(a, c);
      Unbracket(b, d);
      CommaSplit(a, c, b, d);
      IntToStringInjective(p.x, q.x);
      IntToStringInjective(p.y, q.y);
    }
  }

  /** Equal positions hash alike, and inside a 31-wide grid no two positions collide. */
  lemma HashCodeSeparatesSmallGrids(p: Position, q: Position)
    ensures p == q ==> p.HashCode() == q.HashCode()
    ensures 0 <= p.x < 31 && 0 <= p.y < 31 && 0 <= q.x < 31 && 0 <= q.y < 31 && p != q ==>
              p.HashCode() != q.HashCode()
  {
    if 0 <= p.x < 31 && 0 <= p.y < 31 && 0 <= q.x < 31 && 0 <= q.y < 31 {
      assert p.HashCode() == 31 * (31 + p.x) + p.y;
      assert q.HashCode() == 31 * (31 + q.x) + q.y;
      if p.x < q.x {
        assert 31 * (31 + p.x) + p.y < 31 * (31 + p.x) + 31 <= 31 * (31 + q.x);
      } else if q.x < p.x {
        assert 31 * (31 + q.x) + q.y < 31 * (31 + q.x) + 31 <= 31 * (31 + p.x);
      }
    }
  }

  /** A `Position` object whose coordinates are changed in place. */
  class MutablePosition {
    var x: int
    var y: int

    function Value(): Position
      reads this
    {
      Position(x, y)
    }

    /** `new Position(x, y)`. */
    constructor (x: int, y: int)
      ensures Value() == Position(x, y)
    {
      this.x := x;
      this.y := y;
    }

    /** `new Position(z)`. */
    constructor Diagonal(z: int)
      ensures Value() == Uniform(z)
    {
      x := z;
      y := z;
    }

    /** `addi(Position)`. */
    method Addi(other: Position)
      modifies this
      ensures Value() == old(Value()).Add(other)
    {
      x := x + other.x;
      y := y + other.y;
    }

    /** `addXi(int)`. */
    method AddXi(dx: int)
      modifies this
      ensures Value() == old(Value()).AddX(dx)
    {
      x := x + dx;
    }

    /** `addYi(int)`. */
    method AddYi(dy: int)
      modifies this
      ensures Value() == old(Value()).AddY(dy)
    {
      y := y + dy;
    }

    /** `setX(int)`: only the x-coordinate changes. */
    method SetX(v: int)
      modifies this
      ensures x == v && y == old(y)
    {
      x := v;
    }

    /** `setY(int)`: only the y-coordinate changes. */
    method SetY(v: int)
      modifies this
      ensures y == v && x == old(x)
    {
      y := v;
    }
  }
}
