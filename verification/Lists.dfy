/** Sequences and optional values shared by the other modules. */
module Lists {

  datatype Option<+T> = None | Some(value: T)

  datatype Result<+T, +E> = Success(value: T) | Failure(error: E)

  function Min(a: int, b: int): int { if a <= b then a else b }

  /** Python's `s[:k]`: a negative `k` drops elements from the end. */
  function Slice<T>(s: seq<T>, k: int): seq<T> {
    if k >= 0 then s[..Min(k, |s|)] else if |s| + k >= 0 then s[..|s| + k] else []
  }

  /** How many of `n` elements such a slice keeps. */
  function Kept(k: int, n: nat): nat {
    if k >= 0 then Min(k, n) else if n + k >= 0 then n + k else 0
  }

  lemma SliceMeaning<T>(s: seq<T>, k: int)
    ensures Slice(s, k) == s[..Kept(k, |s|)]
  {
  }

  function Map<A, B>(s: seq<A>, f: A -> B): (r: seq<B>)
    ensures |r| == |s| && forall i :: 0 <= i < |s| ==> r[i] == f(s[i])
  {
    seq(|s|, i requires 0 <= i < |s| => f(s[i]))
  }

  /** `list.remove(x)`: the first occurrence. */
  function RemoveFirst<T(==)>(s: seq<T>, x: T): seq<T> {
    if s == [] then [] else if s[0] == x then s[1..] else [s[0]] + RemoveFirst(s[1..], x)
  }

  lemma {:induction false} RemoveFirstAt<T>(s: seq<T>, x: T) returns (i: nat)
    requires x in s
    ensures i < |s| && s[i] == x && x !in s[..i] && RemoveFirst(s, x) == s[..i] + s[i + 1..]
  {
    if s[0] == x {
      i := 0;
    } else {
      var j := RemoveFirstAt(s[1..], x);
      i := j + 1;
      assert s[..i] == [s[0]] + s[1..][..j];
    }
  }

  lemma {:induction false} RemoveFirstOfLast<T>(s: seq<T>, x: T, y: T)
    ensures x in s ==> RemoveFirst(s + [y], x) == RemoveFirst(s, x) + [y]
    ensures x !in s && x == y ==> RemoveFirst(s + [y], x) == s
  {
    if s != [] {
      assert (s + [y])[1..] == s[1..] + [y];
      RemoveFirstOfLast(s[1..], x, y);
    }
  }

  ghost predicate Increasing(p: seq<nat>) { forall i, j :: 0 <= i < j < |p| ==> p[i] < p[j] }

  ghost predicate NoDups<T>(s: seq<T>) {
    forall i, j :: 0 <= i < j < |s| ==> s[i] != s[j]
  }

  /** The comprehension `[x for x in s if p(x)]`. */
  function Filter<T>(s: seq<T>, p: T -> bool): seq<T> {
    if s == [] then [] else if p(s[0]) then [s[0]] + Filter(s[1..], p) else Filter(s[1..], p)
  }

  lemma {:induction false} FilterMeaning<T>(s: seq<T>, p: T -> bool)
    ensures |Filter(s, p)| <= |s|
    ensures forall x :: x in Filter(s, p) ==> x in s && p(x)
    ensures forall i :: 0 <= i < |Filter(s, p)| ==> Filter(s, p)[i] in s && p(Filter(s, p)[i])
    ensures forall x :: x in s && p(x) ==> x in Filter(s, p)
  {
    if s != [] { FilterMeaning(s[1..], p); }
  }

  lemma {:induction false} FilterConcat<T>(a: seq<T>, b: seq<T>, p: T -> bool)
    ensures Filter(a + b, p) == Filter(a, p) + Filter(b, p)
  {
    if a == [] {
      assert a + b == b;
    } else {
      assert (a + b)[0] == a[0] && (a + b)[1..] == a[1..] + b;
      FilterConcat(a[1..], b, p);
    }
  }

  lemma {:induction false} FilterNoDups<T>(s: seq<T>, p: T -> bool)
    requires NoDups(s)
    ensures NoDups(Filter(s, p))
  {
    if s != [] {
      FilterNoDups(s[1..], p);
      FilterMeaning(s[1..], p);
      assert forall x :: x in Filter(s[1..], p) ==> x != s[0];
    }
  }

  /** Two predicates that agree on `s` select the same elements. */
  lemma {:induction false} FilterSame<T>(s: seq<T>, p: T -> bool, q: T -> bool)
    requires forall x :: x in s ==> p(x) == q(x)
    ensures Filter(s, p) == Filter(s, q)
  {
    if s != [] { FilterSame(s[1..], p, q); }
  }

  function Elements<T>(s: seq<T>): set<T> { set x | x in s }

  lemma {:induction false} NoDupsCardinality<T>(s: seq<T>)
    requires NoDups(s)
    ensures |Elements(s)| == |s|
  {
    if s != [] {
      NoDupsCardinality(s[1..]);
      assert Elements(s) == {s[0]} + Elements(s[1..]);
    }
  }

  lemma {:induction false} CardinalityNoDups<T>(s: seq<T>)
    requires |Elements(s)| == |s|
    ensures NoDups(s)
  {
    if s != [] {
      var t := s[1..];
      assert Elements(s) == {s[0]} + Elements(t);
      ElementsBound(t);
      CardinalityNoDups(t);
      assert forall i :: 1 <= i < |s| ==> s[i] == t[i - 1];
    }
  }

  lemma {:induction false} ElementsBound<T>(s: seq<T>)
    ensures |Elements(s)| <= |s|
  {
    if s != [] {
      ElementsBound(s[1..]);
      assert Elements(s) == {s[0]} + Elements(s[1..]);
    }
  }

  lemma IndexBeyond<T>(s: seq<T>, m: nat, x: T) returns (i: nat)
    requires m <= |s| && x in s && x !in s[..m]
    ensures m <= i < |s| && s[i] == x
  {
    assert s == s[..m] + s[m..];
    var j :| 0 <= j < |s[m..]| && s[m..][j] == x;
    i := m + j;
  }

  lemma SubsetCardinality<T>(a: set<T>, b: set<T>)
    requires a <= b
    ensures |a| <= |b|
    ensures |a| == |b| ==> a == b
  {
    assert b == a + (b - a);
  }
}
