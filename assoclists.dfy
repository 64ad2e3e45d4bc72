/**
 * Insertion-ordered association lists keyed by strings: the JavaScript objects the reporter
 * uses as dictionaries. A `for…in` loop visits their keys in insertion order, and assigning
 * to a key that is already present keeps that key where it was.
 */
module AssocLists {
  import opened Wrappers

  /** The keys, in insertion order. */
  function Keys<V>(m: seq<(string, V)>): seq<string>
    ensures |Keys(m)| == |m|
    ensures forall i :: 0 <= i < |m| ==> Keys(m)[i] == m[i].0
  {
    if m == [] then [] else [m[0].0] + Keys(m[1..])
  }

  predicate Distinct(s: seq<string>)
  {
    forall i, j :: 0 <= i < j < |s| ==> s[i] != s[j]
  }

  /** `m[k]`: the value stored under `k`, or `None` when `k` is not a key. */
  function Lookup<V>(m: seq<(string, V)>, k: string): (r: Option<V>)
    ensures r.Some? <==> k in Keys(m)
  {
    if m == [] then None
    else if m[0].0 == k then Some(m[0].1)
    else Lookup(m[1..], k)
  }

  /** The value under `k`, or `d` when there is none. */
  function GetOr<V>(m: seq<(string, V)>, k: string, d: V): V
  {
    match Lookup(m, k)
    case Some(v) => v
    case None => d
  }

  /** `m[k] = v`: a new key goes at the end, an existing key keeps its position. */
  function Put<V>(m: seq<(string, V)>, k: string, v: V): (r: seq<(string, V)>)
    ensures Lookup(r, k) == Some(v)
    ensures forall j :: j != k ==> Lookup(r, j) == Lookup(m, j)
  {
    if m == [] then [(k, v)]
    else if m[0].0 == k then
      assert ([(k, v)] + m[1..])[1..] == m[1..];
      [(k, v)] + m[1..]
    else
      var rest := Put(m[1..], k, v);
      assert ([m[0]] + rest)[1..] == rest;
      [m[0]] + rest
  }

  /** A new key is appended to the key order; an existing key leaves the order as it was. */
  lemma {:induction false} PutKeys<V>(m: seq<(string, V)>, k: string, v: V)
    ensures Keys(Put(m, k, v)) == if k in Keys(m) then Keys(m) else Keys(m) + [k]
  {
    if m != [] && m[0].0 != k {
      var rest := m[1..];
      PutKeys(rest, k, v);
      var r := Put(rest, k, v);
      assert Put(m, k, v) == [m[0]] + r;
      assert ([m[0]] + r)[1..] == r;
      assert Keys(Put(m, k, v)) == [m[0].0] + Keys(r);
      assert Keys(m) == [m[0].0] + Keys(rest);
      assert k in Keys(m) <==> k in Keys(rest);
    }
  }

  /** Assigning keeps the keys free of duplicates. */
  lemma PutDistinct<V>(m: seq<(string, V)>, k: string, v: V)
    requires Distinct(Keys(m))
    ensures Distinct(Keys(Put(m, k, v)))
  {
    PutKeys(m, k, v);
  }

  /** Assigning the same key twice leaves only the second value. */
  lemma {:induction false} PutTwice<V>(m: seq<(string, V)>, k: string, v1: V, v2: V)
    ensures Put(Put(m, k, v1), k, v2) == Put(m, k, v2)
  {
    if m != [] && m[0].0 != k {
      PutTwice(m[1..], k, v1, v2);
      assert Put(m, k, v1)[1..] == Put(m[1..], k, v1);
    }
  }
}
