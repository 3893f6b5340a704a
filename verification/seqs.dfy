/**
  Sequence helpers shared by the store queries: the first matching row
  (a query's `.first()`), filtering in table order (a `WHERE` clause) and
  truncation (a `LIMIT`).
 */
module Seqs {

  datatype Option<T> = None | Some(value: T)

  /** No element occurs twice. */
  predicate NoDuplicates<T(==)>(s: seq<T>) {
    forall i, j :: 0 <= i < j < |s| ==> s[i] != s[j]
  }

  /** `r` is drawn from `s`: no element occurs in `r` more often than in `s`. */
  predicate SubBag<T(==)>(r: seq<T>, s: seq<T>) {
    multiset(r) <= multiset(s)
  }

  /** Index of the first element satisfying `p`, or None when there is none. */
  function FirstIndex<T>(s: seq<T>, p: T -> bool): (r: Option<nat>)
    ensures r.Some? ==> r.value < |s| && p(s[r.value])
    ensures r.Some? ==> forall j :: 0 <= j < r.value ==> !p(s[j])
    ensures r.None? <==> forall j :: 0 <= j < |s| ==> !p(s[j])
  {
    if |s| == 0 then None
    else if p(s[0]) then Some(0)
    else
      match FirstIndex(s[1..], p)
      case None => None
      case Some(k) => Some(k + 1)
  }

  /** The elements of `s` that satisfy `p`, in their original order. */
  function Filter<T(!new)>(s: seq<T>, p: T -> bool): (r: seq<T>)
    ensures |r| <= |s|
    ensures forall x :: x in r <==> x in s && p(x)
    ensures SubBag(r, s)
  {
    if |s| == 0 then []
    else
      assert s == [s[0]] + s[1..];
      if p(s[0]) then [s[0]] + Filter(s[1..], p) else Filter(s[1..], p)
  }

  /** Filtering a sequence without repeats yields a sequence without repeats. */
  lemma {:induction false} FilterNoDuplicates<T(!new)>(s: seq<T>, p: T -> bool)
    requires NoDuplicates(s)
    ensures NoDuplicates(Filter(s, p))
  {
    if |s| > 0 {
      assert NoDuplicates(s[1..]) by {
        forall i, j | 0 <= i < j < |s[1..]|
          ensures s[1..][i] != s[1..][j]
        {
          assert s[1..][i] == s[i + 1] && s[1..][j] == s[j + 1];
        }
      }
      FilterNoDuplicates(s[1..], p);
      if p(s[0]) {
        var rest := Filter(s[1..], p);
        assert s[0] !in s[1..] by {
          forall k | 0 <= k < |s[1..]|
            ensures s[1..][k] != s[0]
          {
            assert s[1..][k] == s[k + 1];
          }
        }
        assert s[0] !in rest;
        forall i, j | 0 <= i < j < |[s[0]] + rest|
          ensures ([s[0]] + rest)[i] != ([s[0]] + rest)[j]
        {
          if i == 0 {
            assert ([s[0]] + rest)[j] == rest[j - 1];
          } else {
            assert ([s[0]] + rest)[i] == rest[i - 1];
            assert ([s[0]] + rest)[j] == rest[j - 1];
          }
        }
      }
    }
  }

  /** At most the first `n` elements, as a `LIMIT n` clause returns them. */
  function Take<T(!new)>(s: seq<T>, n: nat): (r: seq<T>)
    ensures |r| == if n < |s| then n else |s|
    ensures r == s[..|r|]
    ensures forall x :: x in r ==> x in s
    ensures SubBag(r, s)
  {
    if n < |s| then
      assert s == s[..n] + s[n..];
      s[..n]
    else s
  }
}
