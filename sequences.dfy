/** Generic sequence operations behind the JS array methods the blog uses. */
module Sequences {

  /** `r` can be obtained from `s` by deleting elements: same relative order. */
  predicate IsSubsequence<T(==, !new)>(r: seq<T>, s: seq<T>)
  {
    if r == [] then true
    else if s == [] then false
    else (r[0] == s[0] && IsSubsequence(r[1..], s[1..])) || IsSubsequence(r, s[1..])
  }

  predicate NoDuplicates<T(==, !new)>(s: seq<T>)
  {
    forall i, j :: 0 <= i < j < |s| ==> s[i] != s[j]
  }

  function Not<T>(keep: T -> bool): T -> bool
  {
    x => !keep(x)
  }

  /** `Array.prototype.filter`: the elements satisfying `keep`, in their original order. */
  function Filter<T(==, !new)>(s: seq<T>, keep: T -> bool): (r: seq<T>)
    ensures forall x :: x in r <==> x in s && keep(x)
    ensures IsSubsequence(r, s)
  {
    if s == [] then []
    else
      assert s == [s[0]] + s[1..];
      var rest := Filter(s[1..], keep);
      if keep(s[0]) then [s[0]] + rest else rest
  }

  /** A filter keeps every copy of what it keeps and no copy of anything else. */
  lemma {:induction false} FilterCounts<T(!new)>(s: seq<T>, keep: T -> bool)
    ensures forall x :: multiset(Filter(s, keep))[x] == if keep(x) then multiset(s)[x] else 0
  {
    if s != [] {
      assert s == [s[0]] + s[1..];
      FilterCounts(s[1..], keep);
    }
  }

  lemma {:induction false} FilterAppend<T(!new)>(a: seq<T>, b: seq<T>, keep: T -> bool)
    ensures Filter(a + b, keep) == Filter(a, keep) + Filter(b, keep)
  {
    if a == [] {
      assert a + b == b;
    } else {
      assert (a + b)[1..] == a[1..] + b;
      FilterAppend(a[1..], b, keep);
    }
  }

  /** What a filter keeps and what it drops together make up the input. */
  lemma FilterPartition<T(!new)>(s: seq<T>, keep: T -> bool)
    ensures multiset(Filter(s, keep)) + multiset(Filter(s, Not(keep))) == multiset(s)
  {
    var kept, dropped := Filter(s, keep), Filter(s, Not(keep));
    FilterCounts(s, keep);
    FilterCounts(s, Not(keep));
    forall x
      ensures (multiset(kept) + multiset(dropped))[x] == multiset(s)[x]
    {
      assert Not(keep)(x) == !keep(x);
    }
  }

  /** The position of the first occurrence of `x` in `s`. */
  function FirstIndex<T(==, !new)>(s: seq<T>, x: T): (k: nat)
    requires x in s
    ensures k < |s| && s[k] == x
    ensures forall j :: 0 <= j < k ==> s[j] != x
  {
    if s[0] == x then 0 else 1 + FirstIndex(s[1..], x)
  }

  lemma FirstIndexAppend<T(!new)>(s: seq<T>, y: T, x: T)
    requires x in s
    ensures FirstIndex(s + [y], x) == FirstIndex(s, x)
  {
    var k, k' := FirstIndex(s + [y], x), FirstIndex(s, x);
    assert (s + [y])[k'] == x;
  }

  /** The elements of `s` once each, in order of first appearance:
      what `Array.from(new Set(s))` yields, since a JS `Set` keeps insertion order. */
  function Distinct<T(==, !new)>(s: seq<T>): (r: seq<T>)
    ensures forall x :: x in r <==> x in s
    ensures NoDuplicates(r)
    ensures forall i, j :: 0 <= i < j < |r| ==> FirstIndex(s, r[i]) < FirstIndex(s, r[j])
  {
    if s == [] then []
    else
      var init, y := s[..|s| - 1], s[|s| - 1];
      assert s == init + [y];
      var d := Distinct(init);
      FirstIndexesInPrefix(init, y, d);
      if y in d then d else d + [y]
  }

  /** Helper for Distinct: indexes of first occurrences do not move when `y` is appended. */
  lemma FirstIndexesInPrefix<T(!new)>(init: seq<T>, y: T, d: seq<T>)
    requires forall x :: x in d <==> x in init
    ensures forall x :: x in d ==> FirstIndex(init + [y], x) == FirstIndex(init, x)
    ensures y !in init ==> FirstIndex(init + [y], y) == |init|
  {
    forall x | x in d
      ensures FirstIndex(init + [y], x) == FirstIndex(init, x)
    {
      FirstIndexAppend(init, y, x);
    }
    if y !in init {
      var k := FirstIndex(init + [y], y);
    }
  }

  lemma {:induction false} NoDuplicatesCount<T(!new)>(s: seq<T>, x: T)
    requires NoDuplicates(s)
    ensures multiset(s)[x] == if x in s then 1 else 0
  {
    if s != [] {
      assert s == [s[0]] + s[1..];
      assert NoDuplicates(s[1..]);
      NoDuplicatesCount(s[1..], x);
      if s[0] == x {
        assert x !in s[1..];
      }
    }
  }

  lemma {:induction false} SubsequenceOfItself<T(!new)>(s: seq<T>)
    ensures IsSubsequence(s, s)
  {
    if s != [] {
      SubsequenceOfItself(s[1..]);
    }
  }
}
