/**
 * The running-minimum accumulators of the wave function collapse solver: `Entropy` keeps the
 * least value seen and the set of positions that reach it, `CellsEntropy` the same with a
 * list of positions in the order they were added. `Tally` and `Run` are their states as
 * values; `AddStep`/`RunStep` and `MergeStep`/`RunMerge` say what `addCell` and `merge` do.
 */
module Entropies {
  import opened Positions

  /** `(int) Double.POSITIVE_INFINITY`: Java narrows positive infinity to Integer.MAX_VALUE. */
  const Infinity: int := 0x7fff_ffff

  datatype Tally = Tally(value: int, positions: set<Position>)

  datatype Run = Run(value: int, positions: seq<Position>)

  /** `addCell(v, p)` on a set of positions. */
  function AddStep(t: Tally, v: int, p: Position): Tally {
    if v == t.value then Tally(t.value, t.positions + {p})
    else if v < t.value then Tally(v, {p})
    else t
  }

  /** `merge(o)` on a set of positions. */
  function MergeStep(t: Tally, o: Tally): Tally {
    if t.value > o.value then o
    else if t.value == o.value then Tally(t.value, t.positions + o.positions)
    else t
  }

  /** The state after adding `adds` one by one to a fresh accumulator. */
  function Fold(adds: seq<(int, Position)>): Tally {
    if adds == [] then Tally(Infinity, {})
    else AddStep(Fold(adds[..|adds| - 1]), adds[|adds| - 1].0, adds[|adds| - 1].1)
  }

  /** After any sequence of additions the value is the least of Integer.MAX_VALUE and the added
      values, and the positions are exactly those added with that value. */
  lemma {:induction false} FoldIsMinimum(adds: seq<(int, Position)>)
    ensures Fold(adds).value <= Infinity
    ensures forall i | 0 <= i < |adds| :: Fold(adds).value <= adds[i].0
    ensures Fold(adds).value == Infinity || exists i :: 0 <= i < |adds| && adds[i].0 == Fold(adds).value
    ensures forall p :: p in Fold(adds).positions <==> exists i :: 0 <= i < |adds| && adds[i] == (Fold(adds).value, p)
  {
    if adds != [] {
      var front := adds[..|adds| - 1];
      FoldIsMinimum(front);
      var t := Fold(front);
      var last := adds[|adds| - 1];
      assert forall i | 0 <= i < |front| :: front[i] == adds[i];
      var r := Fold(adds);
      forall p
        ensures p in r.positions <==> exists i :: 0 <= i < |adds| && adds[i] == (r.value, p)
      {
        if p in r.positions && p != last.1 {
          var i :| 0 <= i < |front| && front[i] == (t.value, p);
          assert adds[i] == (r.value, p);
        }
        if exists i :: 0 <= i < |adds| && adds[i] == (r.value, p) {
          var i :| 0 <= i < |adds| && adds[i] == (r.value, p);
          if i < |front| {
            assert front[i] == (t.value, p);
          }
        }
      }
      if r.value != Infinity {
        if r.value == t.value {
          if r.value < Infinity {
            var i :| 0 <= i < |front| && front[i].0 == t.value;
            assert adds[i].0 == r.value;
          }
        } else {
          assert last.0 == r.value;
        }
      }
    }
  }

  /** Adding to a merge is merging with the added-to accumulator. */
  lemma AddAfterMerge(x: Tally, y: Tally, v: int, p: Position)
    ensures AddStep(MergeStep(x, y), v, p) == MergeStep(x, AddStep(y, v, p))
  {
  }

  /** Merging the accumulators of two runs of additions gives the accumulator of the whole
      run, so `merge` is the right way to combine partial minimums. */
  lemma {:induction false} FoldAppend(a: seq<(int, Position)>, b: seq<(int, Position)>)
    ensures Fold(a + b) == MergeStep(Fold(a), Fold(b))
    decreases |b|
  {
    if b == [] {
      assert a + b == a;
      FoldIsMinimum(a);
    } else {
      var front := b[..|b| - 1];
      assert (a + b)[..|a + b| - 1] == a + front;
      FoldAppend(a, front);
      AddAfterMerge(Fold(a), Fold(front), b[|b| - 1].0, b[|b| - 1].1);
    }
  }

  /** `addCell(v, p)` on a list of positions. */
  function RunStep(t: Run, v: int, p: Position): Run {
    if v == t.value then Run(t.value, t.positions + [p])
    else if v < t.value then Run(v, [p])
    else t
  }

  /** `merge(o)` on a list of positions. */
  function RunMerge(t: Run, o: Run): Run {
    if t.value > o.value then o
    else if t.value == o.value then Run(t.value, t.positions + o.positions)
    else t
  }

  function RunFold(adds: seq<(int, Position)>): Run {
    if adds == [] then Run(Infinity, [])
    else RunStep(RunFold(adds[..|adds| - 1]), adds[|adds| - 1].0, adds[|adds| - 1].1)
  }

  /** The positions added with value `v`, in the order they were added, duplicates kept. */
  function Matching(adds: seq<(int, Position)>, v: int): seq<Position> {
    if adds == [] then []
    else Matching(adds[..|adds| - 1], v) + (if adds[|adds| - 1].0 == v then [adds[|adds| - 1].1] else [])
  }

  /** Adding a value below everything seen matches nothing before it. */
  lemma {:induction false} MatchingBelow(adds: seq<(int, Position)>, v: int)
    requires forall i | 0 <= i < |adds| :: v < adds[i].0
    ensures Matching(adds, v) == []
  {
    if adds != [] {
      MatchingBelow(adds[..|adds| - 1], v);
    }
  }

  /** The list version keeps the same value as the set version, and its list holds, in the
      order of addition, every position added with the current minimum. */
  lemma {:induction false} RunFoldIsMinimum(adds: seq<(int, Position)>)
    ensures RunFold(adds).value == Fold(adds).value
    ensures RunFold(adds).positions == Matching(adds, RunFold(adds).value)
  {
    if adds != [] {
      var front := adds[..|adds| - 1];
      RunFoldIsMinimum(front);
      FoldIsMinimum(front);
      var last := adds[|adds| - 1];
      if last.0 < Fold(front).value {
        MatchingBelow(front, last.0);
      }
    }
  }

  lemma RunAddAfterMerge(x: Run, y: Run, v: int, p: Position)
    ensures RunStep(RunMerge(x, y), v, p) == RunMerge(x, RunStep(y, v, p))
  {
    if x.value == y.value && v == y.value {
      assert x.positions + y.positions + [p] == x.positions + (y.positions + [p]);
    }
  }

  /** Merging two list accumulators is accumulating the concatenated run. */
  lemma {:induction false} RunFoldAppend(a: seq<(int, Position)>, b: seq<(int, Position)>)
    ensures RunFold(a + b) == RunMerge(RunFold(a), RunFold(b))
    decreases |b|
  {
    if b == [] {
      assert a + b == a;
      FoldIsMinimum(a);
      RunFoldIsMinimum(a);
      assert RunFold(a).positions + [] == RunFold(a).positions;
    } else {
      var front := b[..|b| - 1];
      assert (a + b)[..|a + b| - 1] == a + front;
      RunFoldAppend(a, front);
      RunAddAfterMerge(RunFold(a), RunFold(front), b[|b| - 1].0, b[|b| - 1].1);
    }
  }

  /** `solvers.wfc.Entropy`. */
  class Entropy {
    var value: int
    var positionCells: set<Position>

    function State(): Tally
      reads this
    {
      Tally(value, positionCells)
    }

    constructor ()
      ensures State() == Fold([])
    {
      value := Infinity;
      positionCells := {};
    }

    constructor Of(entropy: int, position: Position)
      ensures State() == Tally(entropy, {position})
    {
      value := entropy;
      positionCells := {position};
    }

    method AddCell(cellEntropy: int, positionCell: Position)
      modifies this
      ensures State() == AddStep(old(State()), cellEntropy, positionCell)
    {
      if cellEntropy == value {
        positionCells := positionCells + {positionCell};
      } else if cellEntropy < value {
        value := cellEntropy;
        positionCells := {positionCell};
      }
    }

    method Merge(cellEntropy: Entropy)
      modifies this
      ensures State() == MergeStep(old(State()), old(cellEntropy.State()))
    {
      if value > cellEntropy.value {
        value := cellEntropy.value;
        positionCells := cellEntropy.positionCells;
      } else if value == cellEntropy.value {
        positionCells := positionCells + cellEntropy.positionCells;
      }
    }
  }

  /** `solvers.wfc.CellsEntropy`. */
  class CellsEntropy {
    var value: int
    var positionCells: seq<Position>

    function State(): Run
      reads this
    {
      Run(value, positionCells)
    }

    constructor ()
      ensures State() == RunFold([])
    {
      value := Infinity;
      positionCells := [];
    }

    constructor Of(entropy: int, position: Position)
      ensures State() == Run(entropy, [position])
    {
      value := entropy;
      positionCells := [position];
    }

    method AddCell(cellEntropy: int, positionCell: Position)
      modifies this
      ensures State() == RunStep(old(State()), cellEntropy, positionCell)
    {
      if cellEntropy == value {
        positionCells := positionCells + [positionCell];
      } else if cellEntropy < value {
        value := cellEntropy;
        positionCells := [positionCell];
      }
    }

    method Merge(cellEntropy: CellsEntropy)
      modifies this
      ensures State() == RunMerge(old(State()), old(cellEntropy.State()))
    {
      if value > cellEntropy.value {
        value := cellEntropy.value;
        positionCells := cellEntropy.positionCells;
      } else if value == cellEntropy.value {
        positionCells := positionCells + cellEntropy.positionCells;
      }
    }
  }
}
