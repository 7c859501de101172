/**
 * The superseded map-based rule `sudoku.Rule`: a map from each value to the set of values
 * placing it rules out. Placing a value removes every value its set lists; merging two
 * rules unions the sets of the values they share.
 */
module LegacyRules {
  import opened Wrappers

  type Value = string

  /** `mergingRule` on maps: every key of either side, with the union of its sets. */
  function Merged<K>(a: map<K, set<K>>, b: map<K, set<K>>): map<K, set<K>> {
    map k | k in a.Keys + b.Keys :: (if k in a then a[k] else {}) + (if k in b then b[k] else {})
  }

  /** `placeValue(v)` on a map holding `v`: every key listed under `v` is gone. */
  function Placed<K>(m: map<K, set<K>>, v: K): map<K, set<K>>
    requires v in m
  {
    m - m[v]
  }

  /** Merging keeps every key of both sides and every value of both sets. */
  lemma MergedContains<K>(a: map<K, set<K>>, b: map<K, set<K>>)
    ensures Merged(a, b).Keys == a.Keys + b.Keys
    ensures forall k | k in a :: a[k] <= Merged(a, b)[k]
    ensures forall k | k in b :: b[k] <= Merged(a, b)[k]
    ensures forall k | k in Merged(a, b) :: forall s | s in Merged(a, b)[k] :: (k in a && s in a[k]) || (k in b && s in b[k])
  {
  }

  /** The order of a merge does not matter. */
  lemma MergedCommutes<K>(a: map<K, set<K>>, b: map<K, set<K>>)
    ensures Merged(a, b) == Merged(b, a)
  {
    var ab, ba := Merged(a, b), Merged(b, a);
    assert ab.Keys == ba.Keys;
    assert forall k | k in ab :: ab[k] == ba[k];
  }

  /** Merging a rule into itself changes nothing. */
  lemma MergedIdempotent<K>(a: map<K, set<K>>)
    ensures Merged(a, a) == a
  {
    var aa := Merged(a, a);
    assert aa.Keys == a.Keys;
    assert forall k | k in aa :: aa[k] == a[k];
  }

  /** On rules sharing no value, merging is copying (`addRule`). */
  lemma MergedDisjointIsCopy<K>(a: map<K, set<K>>, b: map<K, set<K>>)
    requires a.Keys !! b.Keys
    ensures Merged(a, b) == a + b
  {
    var m := Merged(a, b);
    assert m.Keys == (a + b).Keys;
    assert forall k | k in m :: m[k] == (a + b)[k];
  }

  /** `r` is `a` with the entries of `b` at the keys `done` copied over it. */
  ghost predicate CopiedSoFar<K>(r: map<K, set<K>>, a: map<K, set<K>>, b: map<K, set<K>>, done: set<K>) {
    && r.Keys == a.Keys + done
    && forall k | k in r :: if k in done then k in b && r[k] == b[k] else k in a && r[k] == a[k]
  }

  /** Copying the entry of one more key keeps `CopiedSoFar`. */
  lemma CopiedSoFarStep<K>(r: map<K, set<K>>, a: map<K, set<K>>, b: map<K, set<K>>, done: set<K>, k: K)
    requires CopiedSoFar(r, a, b, done) && k in b && k !in done
    ensures CopiedSoFar(r[k := b[k]], a, b, done + {k})
  {
  }

  /** One pass of the loop of `addRule`: takes some key not yet copied and sets it to its
      entry in the other rule. */
  method CopyOne<K>(ghost a: map<K, set<K>>, b: map<K, set<K>>, copied: map<K, set<K>>, rest: set<K>, ghost done: set<K>)
      returns (copied': map<K, set<K>>, rest': set<K>, ghost done': set<K>)
    requires rest != {} && rest <= b.Keys && done == b.Keys - rest
    requires CopiedSoFar(copied, a, b, done)
    ensures rest' <= b.Keys && done' == b.Keys - rest' && |rest'| < |rest|
    ensures CopiedSoFar(copied', a, b, done')
  {
    var key :| key in rest;
    CopiedSoFarStep(copied, a, b, done, key);
    MoveKey(b.Keys, rest, done, key);
    copied' := copied[key := b[key]];
    rest', done' := rest - {key}, done + {key};
  }

  /** The loop of `addRule`: every key of `source`, one at a time, set in `m` to its
      entry there. */
  method CopyAll<K>(m: map<K, set<K>>, source: map<K, set<K>>) returns (copied: map<K, set<K>>)
    ensures copied == m + source
  {
    copied := m;
    var rest := source.Keys;
    ghost var done: set<K> := source.Keys - rest;
    while rest != {}
      invariant rest <= source.Keys && done == source.Keys - rest
      invariant CopiedSoFar(copied, m, source, done)
      decreases |rest|
    {
      copied, rest, done := CopyOne(m, source, copied, rest, done);
    }
    assert done == source.Keys;
    assert copied.Keys == (m + source).Keys;
  }

  /** `r` is the merge of `a` with the entries of `b` at the keys `done`. */
  ghost predicate MergedSoFar<K>(r: map<K, set<K>>, a: map<K, set<K>>, b: map<K, set<K>>, done: set<K>) {
    && r.Keys == a.Keys + done
    && forall k | k in r :: r[k] == (if k in a then a[k] else {}) + (if k in done && k in b then b[k] else {})
  }

  /** Merging the entry of one more key keeps `MergedSoFar`. */
  lemma MergedSoFarStep<K>(r: map<K, set<K>>, a: map<K, set<K>>, b: map<K, set<K>>, done: set<K>, k: K)
    requires MergedSoFar(r, a, b, done) && k in b && k !in done
    ensures MergedSoFar(r[k := (if k in r then r[k] else {}) + b[k]], a, b, done + {k})
  {
  }

  /** A key moved from the keys still to do to the ones done. */
  lemma MoveKey<K>(all: set<K>, rest: set<K>, done: set<K>, k: K)
    requires k in rest && rest <= all && done == all - rest
    ensures rest - {k} <= all && done + {k} == all - (rest - {k}) && |rest - {k}| < |rest|
  {
  }

  /** One pass of the loop of `mergingRule`: takes some key not yet merged and joins its
      set to the one `merged` lists under it. */
  method MergeOne<K>(ghost a: map<K, set<K>>, b: map<K, set<K>>, merged: map<K, set<K>>, rest: set<K>, ghost done: set<K>)
      returns (merged': map<K, set<K>>, rest': set<K>, ghost done': set<K>)
    requires rest != {} && rest <= b.Keys && done == b.Keys - rest
    requires MergedSoFar(merged, a, b, done)
    ensures rest' <= b.Keys && done' == b.Keys - rest' && |rest'| < |rest|
    ensures MergedSoFar(merged', a, b, done')
  {
    var key :| key in rest;
    MergedSoFarStep(merged, a, b, done, key);
    MoveKey(b.Keys, rest, done, key);
    merged' := merged[key := (if key in merged then merged[key] else {}) + b[key]];
    rest', done' := rest - {key}, done + {key};
  }

  /** Nothing merged yet: the map is the one merged into. */
  lemma MergedSoFarStart<K>(a: map<K, set<K>>, b: map<K, set<K>>)
    ensures MergedSoFar(a, a, b, b.Keys - b.Keys)
  {
    assert b.Keys - b.Keys == {};
  }

  /** Every key merged: the map is the merge. */
  lemma MergedSoFarDone<K>(r: map<K, set<K>>, a: map<K, set<K>>, b: map<K, set<K>>, done: set<K>)
    requires MergedSoFar(r, a, b, done) && done == b.Keys - {}
    ensures r == Merged(a, b)
  {
    assert done == b.Keys;
    assert r.Keys == Merged(a, b).Keys;
  }

  /** Placing a value takes out exactly the keys its set lists: no more keys remain than
      before, none of the listed ones stays, every other key keeps its set, and a value
      listing itself (as every value of a fresh rule does) is gone afterwards. */
  lemma PlacedSpec<K>(m: map<K, set<K>>, v: K)
    requires v in m
    ensures Placed(m, v).Keys == m.Keys - m[v]
    ensures forall k | k in Placed(m, v) :: Placed(m, v)[k] == m[k]
    ensures |Placed(m, v)| <= |m|
    ensures v in m[v] ==> v !in Placed(m, v)
  {
    var p := Placed(m, v);
    assert p.Keys <= m.Keys;
    assert |p.Keys| <= |m.Keys|;
  }

  /** The map of a rule built from a list of values: each value rules out itself. */
  function Singletons(values: seq<Value>): map<Value, set<Value>> {
    map v | v in values :: {v}
  }

  class Rule {
    var rules: map<Value, set<Value>>

    /** `Rule(rulesMap)`. */
    constructor FromMap(rulesMap: map<Value, set<Value>>)
      ensures rules == rulesMap
    {
      rules := rulesMap;
    }

    /** `Rule(String[] rules)`: each value mapped to the set holding just itself. */
    constructor (values: seq<Value>)
      ensures rules == Singletons(values)
      ensures forall v | v in values :: v in rules && rules[v] == {v}
      ensures rules.Keys == set v | v in values
    {
      var ruleMap: map<Value, set<Value>> := map[];
      var i := 0;
      while i < |values|
        invariant 0 <= i <= |values|
        invariant ruleMap == Singletons(values[..i])
      {
        assert values[..i + 1] == values[..i] + [values[i]];
        ruleMap := ruleMap[values[i] := {values[i]}];
        i := i + 1;
      }
      assert values[..i] == values;
      rules := ruleMap;
    }

    /** `get(value)`: the set listed under `value`, or null for an unknown value. */
    function Get(value: Value): (r: Option<set<Value>>)
      reads this
      ensures r.Some? <==> value in rules
      ensures r.Some? ==> r.value == rules[value]
    {
      if value in rules then Some(rules[value]) else None
    }

    /** `getPossibleMove()`: the values of the rule. */
    function GetPossibleMove(): (moves: set<Value>)
      reads this
      ensures forall v :: v in moves <==> v in rules
    {
      rules.Keys
    }

    /** `size()`: the number of values. */
    function Size(): (n: nat)
      reads this
      ensures n == |GetPossibleMove()|
    {
      |rules|
    }

    /** `isValid(key)`: the key is one of the rule's values, so `get` finds a set for it. */
    function IsValid(key: Value): (valid: bool)
      reads this
      ensures valid <==> Get(key).Some?
      ensures valid <==> key in GetPossibleMove()
    {
      key in rules
    }

    /** `add(key, value)`: sets (or replaces) the set listed under `key`. */
    method Add(key: Value, value: set<Value>)
      modifies this
      ensures rules == old(rules)[key := value]
    {
      rules := rules[key := value];
    }

    /** `addRule(rule)`: copies every entry of the other rule, replacing the sets of the
        values both have. */
    method AddRule(rule: Rule)
      modifies this
      ensures rules == old(rules) + old(rule.rules)
    {
      rules := CopyAll(rules, rule.rules);
    }

    /** `mergingRule(rule)`: unions the sets of the values both rules have and copies the
        values only the other rule has. */
    method MergingRule(rule: Rule)
      modifies this
      ensures rules == Merged(old(rules), old(rule.rules))
    {
      var source, merged := rule.rules, rules;
      var rest := source.Keys;
      ghost var done: set<Value> := source.Keys - rest;
      MergedSoFarStart(rules, source);
      while rest != {}
        invariant rest <= source.Keys && done == source.Keys - rest
        invariant MergedSoFar(merged, rules, source, done)
        modifies {}
        decreases |rest|
      {
        merged, rest, done := MergeOne(rules, source, merged, rest, done);
      }
      MergedSoFarDone(merged, rules, source, done);
      rules := merged;
    }

    /** `placeValue(value)`: refuses an unknown value and leaves the rule as it is;
        otherwise removes every value listed under it. */
    method PlaceValue(value: Value) returns (placed: bool)
      modifies this
      ensures placed <==> value in old(rules)
      ensures !placed ==> rules == old(rules)
      ensures placed ==> rules == Placed(old(rules), value)
    {
      if !IsValid(value) {
        return false;
      }
      ghost var start := rules;
      var rest := rules[value];
      while rest != {}
        invariant rest <= start[value]
        invariant rules == start - (start[value] - rest)
        decreases |rest|
      {
        var key :| key in rest;
        RemoveRule(key);
        rest := rest - {key};
      }
      return true;
    }

    /** `removeRule(value)`: drops the value; an unknown value changes nothing. */
    method RemoveRule(value: Value)
      modifies this
      ensures rules == old(rules) - {value}
      ensures value !in old(rules) ==> rules == old(rules)
    {
      rules := rules - {value};
    }
  }
}
