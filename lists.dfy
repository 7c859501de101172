/** Sequence operations shared by the model of Java's `ArrayList`. */
module Lists {

  /** `ArrayList.remove(Object)`: drops the first element equal to `v`, if any. */
  function RemoveFirst<T(==)>(s: seq<T>, v: T): (r: seq<T>)
  {
    if s == [] then [] else if s[0] == v then s[1..] else [s[0]] + RemoveFirst(s[1..], v)
  }

  /** `ArrayList.indexOf(Object)`: the first index holding `v`, or -1. */
  function IndexOf<T(==)>(s: seq<T>, v: T): (i: int)
    ensures -1 <= i < |s|
    ensures i == -1 <==> v !in s
    ensures i >= 0 ==> s[i] == v && v !in s[..i]
  {
    if s == [] then -1
    else if s[0] == v then 0
    else var j := IndexOf(s[1..], v); if j == -1 then -1 else (assert s[1..][..j] == s[1..j + 1]; j + 1)
  }

  /** `ArrayList.remove(int)`: drops the element at index `i`. */
  function RemoveAt<T>(s: seq<T>, i: nat): (r: seq<T>)
    requires i < |s|
    ensures |r| == |s| - 1
  {
    s[..i] + s[i + 1..]
  }

  /** Removing a value drops exactly its first occurrence and keeps everything else in order. */
  lemma {:induction false} RemoveFirstIsRemoveAtIndexOf<T>(s: seq<T>, v: T)
    ensures v in s ==> RemoveFirst(s, v) == RemoveAt(s, IndexOf(s, v))
    ensures v !in s ==> RemoveFirst(s, v) == s
  {
    if s != [] && s[0] != v {
      RemoveFirstIsRemoveAtIndexOf(s[1..], v);
      if v in s {
        assert v in s[1..];
        var j := IndexOf(s[1..], v);
        assert [s[0]] + (s[1..][..j] + s[1..][j + 1..]) == s[..j + 1] + s[j + 2..];
      }
    }
  }

  /** Removing a present value shortens the list by one and takes one copy out of its multiset. */
  lemma {:induction false} RemoveFirstMultiset<T>(s: seq<T>, v: T)
    ensures v in s ==> |RemoveFirst(s, v)| == |s| - 1 && multiset(RemoveFirst(s, v)) == multiset(s) - multiset{v}
  {
    if s != [] {
      assert s == [s[0]] + s[1..];
      if s[0] != v {
        RemoveFirstMultiset(s[1..], v);
      }
    }
  }

  lemma AppendAssociative<T>(a: seq<T>, b: seq<T>, c: seq<T>)
    ensures a + b + c == a + (b + c)
  {
  }

  predicate Distinct<T(==)>(s: seq<T>) {
    forall i, j :: 0 <= i < j < |s| ==> s[i] != s[j]
  }
}
