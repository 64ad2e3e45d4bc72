/**
 * `browsers.sort()` without a comparator: JavaScript orders strings lexicographically by
 * character code. The order, a pure insertion sort that specifies the result, and the
 * in-place sort of the browser array.
 */
module Sorting {

  /** `a` sorts before or equal to `b` in JavaScript's default string order. */
  predicate StrLe(a: string, b: string)
    decreases |a|
  {
    |a| == 0 || (|b| > 0 && (a[0] < b[0] || (a[0] == b[0] && StrLe(a[1..], b[1..]))))
  }

  lemma {:induction false} StrLeReflexive(a: string)
    ensures StrLe(a, a)
    decreases |a|
  {
    if |a| > 0 { StrLeReflexive(a[1..]); }
  }

  lemma {:induction false} StrLeAntisymmetric(a: string, b: string)
    requires StrLe(a, b) && StrLe(b, a)
    ensures a == b
    decreases |a|
  {
    if |a| > 0 {
      StrLeAntisymmetric(a[1..], b[1..]);
      assert a == [a[0]] + a[1..] && b == [b[0]] + b[1..];
    }
  }

  lemma {:induction false} StrLeTransitive(a: string, b: string, c: string)
    requires StrLe(a, b) && StrLe(b, c)
    ensures StrLe(a, c)
    decreases |a|
  {
    if |a| > 0 && a[0] == b[0] && b[0] == c[0] {
      StrLeTransitive(a[1..], b[1..], c[1..]);
    }
  }

  lemma {:induction false} StrLeTotal(a: string, b: string)
    ensures StrLe(a, b) || StrLe(b, a)
    decreases |a|
  {
    if |a| > 0 && |b| > 0 && a[0] == b[0] {
      StrLeTotal(a[1..], b[1..]);
    }
  }

  predicate Sorted(s: seq<string>)
  {
    forall i, j :: 0 <= i < j < |s| ==> StrLe(s[i], s[j])
  }

  /** `x` put into its place in the sorted `s`. */
  function Insert(x: string, s: seq<string>): (r: seq<string>)
    requires Sorted(s)
    ensures Sorted(r)
    ensures multiset(r) == multiset(s) + multiset{x}
    decreases |s|
  {
    if s == [] then [x]
    else if StrLe(x, s[0]) then
      InsertFrontSorted(x, s);
      [x] + s
    else
      var r := Insert(x, s[1..]);
      StrLeTotal(x, s[0]);
      InsertBehindSorted(s, x, r);
      assert s == [s[0]] + s[1..];
      [s[0]] + r
  }

  lemma InsertFrontSorted(x: string, s: seq<string>)
    requires Sorted(s) && s != [] && StrLe(x, s[0])
    ensures Sorted([x] + s)
  {
    forall j | 0 <= j < |s| ensures StrLe(x, s[j]) {
      if j > 0 { StrLeTransitive(x, s[0], s[j]); }
    }
  }

  lemma InsertBehindSorted(s: seq<string>, x: string, r: seq<string>)
    requires Sorted(s) && s != [] && StrLe(s[0], x) && Sorted(r)
    requires multiset(r) == multiset(s[1..]) + multiset{x}
    ensures Sorted([s[0]] + r)
  {
    forall j | 0 <= j < |r| ensures StrLe(s[0], r[j]) {
      assert r[j] in multiset(r);
      if r[j] != x {
        assert r[j] in multiset(s[1..]);
        var k :| 0 <= k < |s[1..]| && s[1..][k] == r[j];
        assert s[k + 1] == r[j];
      }
    }
  }

  /** Insertion sort: the order in which the report lists its browser columns. */
  function Sort(s: seq<string>): (r: seq<string>)
    ensures Sorted(r)
    ensures multiset(r) == multiset(s)
  {
    if s == [] then []
    else
      assert s == s[..|s| - 1] + [s[|s| - 1]];
      Insert(s[|s| - 1], Sort(s[..|s| - 1]))
  }

  /** A sorted arrangement of a multiset of strings is unique. */
  lemma {:induction false} SortedUnique(a: seq<string>, b: seq<string>)
    requires Sorted(a) && Sorted(b) && multiset(a) == multiset(b)
    ensures a == b
    decreases |a|
  {
    assert |a| == |multiset(a)| == |multiset(b)| == |b|;
    if a != [] {
      SameFirst(a, b);
      TailMultiset(a);
      TailMultiset(b);
      SortedUnique(a[1..], b[1..]);
      assert a == [a[0]] + a[1..] && b == [b[0]] + b[1..];
    }
  }

  /** Two sorted arrangements of one multiset start with the same element. */
  lemma SameFirst(a: seq<string>, b: seq<string>)
    requires Sorted(a) && Sorted(b) && multiset(a) == multiset(b) && a != [] && b != []
    ensures a[0] == b[0]
  {
    assert a[0] in multiset(b);
    var i :| 0 <= i < |b| && b[i] == a[0];
    assert b[0] in multiset(a);
    var j :| 0 <= j < |a| && a[j] == b[0];
    if i > 0 && j > 0 {
      StrLeAntisymmetric(a[0], b[0]);
    }
  }

  lemma TailMultiset(a: seq<string>)
    requires a != []
    ensures multiset(a[1..]) == multiset(a) - multiset{a[0]}
  {
    assert a == [a[0]] + a[1..];
  }

  /** Sorting keeps the elements and puts them in order; any sorted rearrangement is this one. */
  lemma SortIsTheSortedPermutation(s: seq<string>, t: seq<string>)
    requires Sorted(t) && multiset(t) == multiset(s)
    ensures Sort(s) == t
  {
    SortedUnique(Sort(s), t);
  }

  /** `browsers.sort()`: sorts the array in place. */
  method SortInPlace(a: array<string>)
    modifies a
    ensures a[..] == Sort(old(a[..]))
  {
    var i := 0;
    while i < a.Length
      invariant 0 <= i <= a.Length
      invariant Sorted(a[..i])
      invariant multiset(a[..]) == multiset(old(a[..]))
    {
      InsertLast(a, i);
      i := i + 1;
    }
    assert a[..a.Length] == a[..];
    SortIsTheSortedPermutation(old(a[..]), a[..]);
  }

  /** One pass of insertion sort: moves `a[i]` down into the sorted prefix `a[..i]`. */
  method InsertLast(a: array<string>, i: nat)
    requires i < a.Length && Sorted(a[..i])
    modifies a
    ensures Sorted(a[..i + 1])
    ensures multiset(a[..]) == multiset(old(a[..]))
  {
    var j := i;
    assert SortedExcept(a[..i + 1], j);
    while j > 0 && !StrLe(a[j - 1], a[j])
      invariant 0 <= j <= i
      invariant multiset(a[..]) == multiset(old(a[..]))
      invariant SortedExcept(a[..i + 1], j) && BelowRest(a[..i + 1], j)
    {
      ghost var s := a[..i + 1];
      StrLeTotal(a[j - 1], a[j]);
      a[j - 1], a[j] := a[j], a[j - 1];
      assert a[..i + 1] == s[j - 1 := s[j]][j := s[j - 1]];
      SwapStep(s, j);
      j := j - 1;
    }
    InsertDone(a[..i + 1], j);
  }

  /** `s` is sorted once the element at index `j` is set aside. */
  predicate SortedExcept(s: seq<string>, j: int)
  {
    forall p, q :: 0 <= p < q < |s| && p != j && q != j ==> StrLe(s[p], s[q])
  }

  /** The element at index `j` is at most every element after it. */
  predicate BelowRest(s: seq<string>, j: int)
    requires 0 <= j < |s|
  {
    forall q :: j < q < |s| ==> StrLe(s[j], s[q])
  }

  lemma SwapStep(s: seq<string>, j: int)
    requires 0 < j < |s| && SortedExcept(s, j) && BelowRest(s, j) && StrLe(s[j], s[j - 1])
    ensures SortedExcept(s[j - 1 := s[j]][j := s[j - 1]], j - 1)
    ensures BelowRest(s[j - 1 := s[j]][j := s[j - 1]], j - 1)
  {
  }

  lemma InsertDone(s: seq<string>, j: int)
    requires 0 <= j < |s| && SortedExcept(s, j) && BelowRest(s, j)
    requires j > 0 ==> StrLe(s[j - 1], s[j])
    ensures Sorted(s)
  {
    if j > 0 {
      forall p | 0 <= p < j - 1 ensures StrLe(s[p], s[j]) {
        StrLeTransitive(s[p], s[j - 1], s[j]);
      }
    }
  }
}
