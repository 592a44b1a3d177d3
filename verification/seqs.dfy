/**
 * The in-memory reading of the SQL the repositories issue against one table:
 * `WHERE` as an order-preserving filter, `ORDER BY ... DESC` as a sort,
 * `LIMIT` as a prefix, `IFNULL(MAX(Id), 0)` as a maximum.
 */
module Seqs {

  /** `r` is `s` with some elements dropped and the rest kept in order. */
  ghost predicate IsSubsequence<T>(r: seq<T>, s: seq<T>)
    decreases |s|
  {
    if r == [] then true
    else if s == [] then false
    else (r[0] == s[0] && IsSubsequence(r[1..], s[1..])) || IsSubsequence(r, s[1..])
  }

  lemma {:induction false} SubsequenceRefl<T>(s: seq<T>)
    ensures IsSubsequence(s, s)
  {
    if s != [] {
      SubsequenceRefl(s[1..]);
    }
  }

  /** The elements of `s` satisfying `p`, in their original order and multiplicity. */
  function Filter<T(==)>(s: seq<T>, p: T -> bool): (r: seq<T>)
    ensures |r| <= |s|
    ensures forall i :: 0 <= i < |r| ==> p(r[i]) && r[i] in s
    ensures forall i :: 0 <= i < |s| && p(s[i]) ==> multiset(r)[s[i]] == multiset(s)[s[i]]
    ensures forall i :: 0 <= i < |s| && p(s[i]) ==> s[i] in r
    ensures IsSubsequence(r, s)
  {
    if s == [] then []
    else
      var rest := Filter(s[1..], p);
      var r := if p(s[0]) then [s[0]] + rest else rest;
      assert s == [s[0]] + s[1..];
      FilterStep(s[0], s[1..], p, rest);
      FilterStepCount(s[0], s[1..], p, rest);
      r
  }

  /** The inductive step of `Filter`, for everything but the multiplicities. */
  lemma FilterStep<T>(x: T, t: seq<T>, p: T -> bool, rest: seq<T>)
    requires |rest| <= |t|
    requires forall i :: 0 <= i < |rest| ==> p(rest[i]) && rest[i] in t
    requires forall i :: 0 <= i < |t| && p(t[i]) ==> t[i] in rest
    requires IsSubsequence(rest, t)
    ensures var s, r := [x] + t, if p(x) then [x] + rest else rest;
      && |r| <= |s|
      && (forall i :: 0 <= i < |r| ==> p(r[i]) && r[i] in s)
      && (forall i :: 0 <= i < |s| && p(s[i]) ==> s[i] in r)
      && IsSubsequence(r, s)
  {
    var s, r := [x] + t, if p(x) then [x] + rest else rest;
    assert s[1..] == t;
    if p(x) {
      assert r[1..] == rest;
      forall i | 0 <= i < |r| ensures p(r[i]) && r[i] in s {
        if i > 0 { assert r[i] == rest[i - 1]; }
      }
    }
    forall i | 0 <= i < |s| && p(s[i]) ensures s[i] in r {
      if i > 0 { assert s[i] == t[i - 1]; }
    }
  }

  /** The inductive step of `Filter` for the multiplicities of the kept elements. */
  lemma FilterStepCount<T>(x: T, t: seq<T>, p: T -> bool, rest: seq<T>)
    requires forall i :: 0 <= i < |rest| ==> rest[i] in t
    requires forall i :: 0 <= i < |t| && p(t[i]) ==> multiset(rest)[t[i]] == multiset(t)[t[i]]
    ensures var s, r := [x] + t, if p(x) then [x] + rest else rest;
      forall i :: 0 <= i < |s| && p(s[i]) ==> multiset(r)[s[i]] == multiset(s)[s[i]]
  {
    var s, r := [x] + t, if p(x) then [x] + rest else rest;
    assert multiset(s) == multiset{x} + multiset(t);
    assert p(x) ==> multiset(r) == multiset{x} + multiset(rest);
    forall i | 0 <= i < |s| && p(s[i]) ensures multiset(r)[s[i]] == multiset(s)[s[i]] {
      var y := s[i];
      if y in t {
        var j :| 0 <= j < |t| && t[j] == y;
      } else {
        assert y !in rest;
      }
    }
  }

  /** An element of `s` survives the filter exactly when it satisfies `p`. */
  lemma FilterMember<T>(s: seq<T>, p: T -> bool, x: T)
    requires x in s
    ensures x in Filter(s, p) <==> p(x)
  {
    var r := Filter(s, p);
    if x in r {
      var i :| 0 <= i < |r| && r[i] == x;
    }
  }

  /** Filtering with a predicate that holds everywhere in `s` changes nothing. */
  lemma {:induction false} FilterAll<T>(s: seq<T>, p: T -> bool)
    requires forall i :: 0 <= i < |s| ==> p(s[i])
    ensures Filter(s, p) == s
  {
    if s != [] {
      FilterAll(s[1..], p);
    }
  }

  /** Each element, or the element rewritten by `f` where `p` holds: an `UPDATE ... WHERE`. */
  function MapWhere<T>(s: seq<T>, p: T -> bool, f: T -> T): (r: seq<T>)
    ensures |r| == |s|
    ensures forall i :: 0 <= i < |s| ==> r[i] == if p(s[i]) then f(s[i]) else s[i]
  {
    seq(|s|, i requires 0 <= i < |s| => if p(s[i]) then f(s[i]) else s[i])
  }

  /** `f` applied to each element, in order. */
  function Map<T, U>(s: seq<T>, f: T -> U): (r: seq<U>)
    ensures |r| == |s|
    ensures forall i :: 0 <= i < |s| ==> r[i] == f(s[i])
  {
    seq(|s|, i requires 0 <= i < |s| => f(s[i]))
  }

  lemma MapConcat<T, U>(a: seq<T>, b: seq<T>, f: T -> U)
    ensures Map(a + b, f) == Map(a, f) + Map(b, f)
  {
  }

  /** Mapping a rearrangement gives a rearrangement of the mapped sequence. */
  lemma {:induction false} MapPermutation<T, U>(a: seq<T>, b: seq<T>, f: T -> U)
    requires multiset(a) == multiset(b)
    ensures multiset(Map(a, f)) == multiset(Map(b, f))
    decreases |a|
  {
    if a == [] {
      assert |b| == |multiset(b)| == 0;
    } else {
      var x := a[0];
      assert x in multiset(b);
      var j :| 0 <= j < |b| && b[j] == x;
      var rest := b[..j] + b[j + 1..];
      assert b == b[..j] + [x] + b[j + 1..];
      assert a == [x] + a[1..];
      assert multiset(b) == multiset(b[..j]) + multiset{x} + multiset(b[j + 1..]);
      assert multiset(a) == multiset{x} + multiset(a[1..]);
      assert multiset(rest) == multiset(b[..j]) + multiset(b[j + 1..]);
      assert multiset(a[1..]) == multiset(a) - multiset{x};
      assert multiset(rest) == multiset(b) - multiset{x};
      MapPermutation(a[1..], rest, f);
      MapConcat([x], a[1..], f);
      MapConcat(b[..j], b[j + 1..], f);
      MapConcat(b[..j] + [x], b[j + 1..], f);
      MapConcat(b[..j], [x], f);
    }
  }

  /** In a permutation every element of one side stands somewhere in the other. */
  lemma PermutationIndex<T>(a: seq<T>, b: seq<T>, i: nat)
    requires multiset(a) == multiset(b) && i < |a|
    ensures exists k :: 0 <= k < |b| && b[k] == a[i]
  {
    assert a[i] in multiset(b);
  }

  /** Keys never increase from left to right. */
  ghost predicate SortedDesc<T>(s: seq<T>, key: T -> nat) {
    forall i, j :: 0 <= i < j < |s| ==> key(s[i]) >= key(s[j])
  }

  /** An element no smaller than the head of a descending sequence can go in front of it. */
  lemma ConsSorted<T>(y: T, s: seq<T>, key: T -> nat)
    requires SortedDesc(s, key) && (s == [] || key(y) >= key(s[0]))
    ensures SortedDesc([y] + s, key)
  {
    var r := [y] + s;
    forall i, j | 0 <= i < j < |r| ensures key(r[i]) >= key(r[j]) {
      if i == 0 {
        assert r[j] == s[j - 1];
        if j > 1 { assert key(s[0]) >= key(s[j - 1]); }
      } else {
        assert r[i] == s[i - 1] && r[j] == s[j - 1];
      }
    }
  }

  /** Places `x` into a descending sequence, after every element with a key at least as big. */
  function InsertDesc<T>(x: T, s: seq<T>, key: T -> nat): (r: seq<T>)
    requires SortedDesc(s, key)
    ensures SortedDesc(r, key)
    ensures multiset(r) == multiset(s) + multiset{x}
    ensures r[0] == x || (s != [] && r[0] == s[0])
  {
    if s == [] then [x]
    else if key(s[0]) >= key(x) then
      assert SortedDesc(s[1..], key);
      var rest := InsertDesc(x, s[1..], key);
      assert s == [s[0]] + s[1..];
      assert key(s[0]) >= key(rest[0]) by {
        if rest[0] != x { assert rest[0] == s[1..][0] == s[1]; }
      }
      ConsSorted(s[0], rest, key);
      assert multiset([s[0]] + rest) == multiset{s[0]} + multiset(s[1..]) + multiset{x};
      [s[0]] + rest
    else
      ConsSorted(x, s, key);
      [x] + s
  }

  /** `ORDER BY key DESC`: the same elements, largest key first. */
  function SortDesc<T>(s: seq<T>, key: T -> nat): (r: seq<T>)
    ensures SortedDesc(r, key)
    ensures multiset(r) == multiset(s)
    ensures |r| == |s|
  {
    if s == [] then []
    else
      var r := InsertDesc(s[0], SortDesc(s[1..], key), key);
      assert s == [s[0]] + s[1..];
      assert multiset(s) == multiset{s[0]} + multiset(s[1..]);
      assert |r| == |multiset(r)|;
      r
  }

  /**
   * A rearrangement of `Map(u, f)` sorted by descending key starts with the
   * image of `u`'s last element, when keys strictly increase along `u` and
   * `f` keeps them.
   */
  lemma SortedImageHead<T, U>(u: seq<T>, all: seq<U>, f: T -> U, key: T -> nat, imageKey: U -> nat)
    requires u != [] && forall i, j :: 0 <= i < j < |u| ==> key(u[i]) < key(u[j])
    requires forall x :: imageKey(f(x)) == key(x)
    requires SortedDesc(all, imageKey)
    requires multiset(all) == multiset(Map(u, f))
    ensures |all| == |u|
    ensures all[0] == f(u[|u| - 1])
  {
    var m := Map(u, f);
    var last := |u| - 1;
    assert |all| == |multiset(all)| == |multiset(m)| == |m| == |u|;
    assert m[last] in multiset(m);
    assert m[last] in multiset(all);
    var i :| 0 <= i < |all| && all[i] == m[last];
    assert all[0] in multiset(m);
    var k :| 0 <= k < |m| && m[k] == all[0];
    assert i == 0 || imageKey(all[0]) >= imageKey(all[i]);
    assert k == last;
  }

  /** `LIMIT n`: the first `n` elements, or all of them when there are fewer. */
  function Take<T>(s: seq<T>, n: nat): (r: seq<T>)
    ensures |r| == if n < |s| then n else |s|
    ensures r == s[..|r|]
  {
    if n < |s| then s[..n] else s
  }

  /** `IFNULL(MAX(key), 0)`. */
  function MaxKey<T>(s: seq<T>, key: T -> nat): (m: nat)
    ensures forall i :: 0 <= i < |s| ==> key(s[i]) <= m
    ensures s == [] ==> m == 0
    ensures s != [] ==> exists i :: 0 <= i < |s| && key(s[i]) == m
  {
    if s == [] then 0
    else
      var rest := MaxKey(s[1..], key);
      assert forall i :: 1 <= i < |s| ==> s[i] == s[1..][i - 1];
      if key(s[0]) >= rest then key(s[0])
      else
        assert s[1..] != [];
        var k :| 0 <= k < |s[1..]| && key(s[1..][k]) == rest;
        assert key(s[k + 1]) == rest;
        rest
  }
}
