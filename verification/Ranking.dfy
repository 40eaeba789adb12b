/** Stable descending sort and how much of a score list a cut determines. */
module Ranking {
  import opened Lists

  datatype Scored<T> = Scored(score: real, item: T)

  ghost predicate Descending<T>(s: seq<Scored<T>>) {
    forall i, j :: 0 <= i < j < |s| ==> s[i].score >= s[j].score
  }

  function AtLeast<T>(r: real): Scored<T> -> bool { (h: Scored<T>) => h.score >= r }

  function HasScore<T>(v: real): Scored<T> -> bool { (h: Scored<T>) => h.score == v }

  function Scores<T>(s: seq<Scored<T>>): (r: seq<real>)
    ensures |r| == |s| && forall i :: 0 <= i < |s| ==> r[i] == s[i].score
  {
    seq(|s|, i requires 0 <= i < |s| => s[i].score)
  }

  function Insert<T>(x: Scored<T>, s: seq<Scored<T>>): seq<Scored<T>> {
    if s == [] || x.score >= s[0].score then [x] + s else [s[0]] + Insert(x, s[1..])
  }

  /** `sorted(s, key=score, reverse=True)`: descending, ties in their input order. */
  function SortDesc<T>(s: seq<Scored<T>>): seq<Scored<T>> {
    if s == [] then [] else Insert(s[0], SortDesc(s[1..]))
  }

  lemma {:induction false} InsertPermutes<T>(x: Scored<T>, s: seq<Scored<T>>)
    ensures multiset(Insert(x, s)) == multiset{x} + multiset(s)
  {
    if s != [] && x.score < s[0].score {
      InsertPermutes(x, s[1..]);
      assert s == [s[0]] + s[1..];
    }
  }

  lemma {:induction false} InsertSorts<T>(x: Scored<T>, s: seq<Scored<T>>)
    requires Descending(s)
    ensures Descending(Insert(x, s))
  {
    if s != [] && x.score < s[0].score {
      InsertSorts(x, s[1..]);
      InsertPermutes(x, s[1..]);
      var t := Insert(x, s[1..]);
      forall j | 0 <= j < |t| ensures s[0].score >= t[j].score {
        assert t[j] in multiset(t);
      }
    }
  }

  lemma {:induction false} SortSorts<T>(s: seq<Scored<T>>)
    ensures Descending(SortDesc(s))
    ensures multiset(SortDesc(s)) == multiset(s)
  {
    if s != [] {
      assert s == [s[0]] + s[1..];
      SortSorts(s[1..]);
      InsertSorts(s[0], SortDesc(s[1..]));
      InsertPermutes(s[0], SortDesc(s[1..]));
    }
  }

  lemma SortKeeps<T>(s: seq<Scored<T>>)
    ensures |SortDesc(s)| == |s|
    ensures forall i :: 0 <= i < |s| ==> SortDesc(s)[i] in s
    ensures forall x :: x in SortDesc(s) <==> x in s
  {
    SortSorts(s);
    assert forall i :: 0 <= i < |SortDesc(s)| ==> SortDesc(s)[i] in multiset(SortDesc(s));
    assert |multiset(SortDesc(s))| == |multiset(s)|;
    assert forall x :: x in SortDesc(s) <==> x in multiset(SortDesc(s));
  }

  lemma {:induction false} InsertStable<T>(x: Scored<T>, s: seq<Scored<T>>, v: real)
    requires Descending(s)
    ensures Filter(Insert(x, s), HasScore(v))
         == Filter([x] + s, HasScore(v))
  {
    var p := HasScore<T>(v);
    if s != [] && x.score < s[0].score {
      InsertStable(x, s[1..], v);
      FilterConcat([x], s, p);
      FilterConcat([x], s[1..], p);
      assert [s[0]] + s[1..] == s;
      FilterConcat([s[0]], s[1..], p);
      FilterConcat([s[0]], Insert(x, s[1..]), p);
    }
  }

  /** Entries of one score come out of the sort in the order they went in. */
  lemma {:induction false} SortStable<T>(s: seq<Scored<T>>, v: real)
    ensures Filter(SortDesc(s), HasScore(v))
         == Filter(s, HasScore(v))
  {
    if s != [] {
      var p := HasScore<T>(v);
      SortStable(s[1..], v);
      SortSorts(s[1..]);
      InsertStable(s[0], SortDesc(s[1..]), v);
      assert s == [s[0]] + s[1..];
      FilterConcat([s[0]], s[1..], p);
      FilterConcat([s[0]], SortDesc(s[1..]), p);
    }
  }

  /** `t` lists entries of `s`, each at most once: the `j`-th is the one at `p[j]`. */
  ghost predicate Picks<T>(s: seq<T>, t: seq<T>, p: seq<nat>) {
    |p| == |t| && NoDups(p) && forall j :: 0 <= j < |p| ==> p[j] < |s| && t[j] == s[p[j]]
  }

  /** Entries of one score are listed by position. */
  ghost predicate TiesInOrder<T>(t: seq<Scored<T>>, p: seq<nat>) requires |p| == |t| {
    forall i, j :: 0 <= i < j < |p| && t[i].score == t[j].score ==> p[i] < p[j]
  }

  lemma {:induction false} InsertAt<T>(x: Scored<T>, s: seq<Scored<T>>) returns (i: nat)
    ensures i <= |s| && Insert(x, s) == s[..i] + [x] + s[i..]
    ensures forall j :: 0 <= j < i ==> s[j].score > x.score
  {
    if s == [] || x.score >= s[0].score {
      i := 0;
    } else {
      var j := InsertAt(x, s[1..]);
      i := j + 1;
      assert s == [s[0]] + s[1..];
      assert s[..i] == [s[0]] + s[1..][..j];
    }
  }

  /** The sort rearranges positions, ties in order. */
  lemma {:induction false} SortPicks<T>(s: seq<Scored<T>>) returns (p: seq<nat>)
    ensures Picks(s, SortDesc(s), p) && |p| == |s| && TiesInOrder(SortDesc(s), p)
  {
    if s == [] {
      p := [];
    } else {
      var t := SortDesc(s[1..]);
      var q := SortPicks(s[1..]);
      var i := InsertAt(s[0], t);
      var later := Later(q);
      p := later[..i] + [0] + later[i..];
      PickInserted(s, t, q, i, p);
      TiesInserted(s[0], t, q, i, p);
    }
  }

  lemma PickInserted<T>(s: seq<T>, t: seq<T>, q: seq<nat>, i: nat, p: seq<nat>)
    requires s != [] && Picks(s[1..], t, q) && i <= |t|
    requires p == Later(q)[..i] + [0] + Later(q)[i..]
    ensures Picks(s, t[..i] + [s[0]] + t[i..], p)
  {
    var u := t[..i] + [s[0]] + t[i..];
    forall j | 0 <= j < |p| ensures p[j] < |s| && u[j] == s[p[j]] {
      if j != i {
        var k := if j < i then j else j - 1;
        assert p[j] == Later(q)[k] == q[k] + 1 && u[j] == t[k];
        assert t[k] == s[1..][q[k]];
      }
    }
    forall a, b | 0 <= a < b < |p| ensures p[a] != p[b] {
      var k, l := if a < i then a else a - 1, if b < i then b else b - 1;
      if a != i && b != i { assert p[a] == Later(q)[k] && p[b] == Later(q)[l] && q[k] != q[l]; }
    }
  }

  lemma TiesInserted<T>(x: Scored<T>, t: seq<Scored<T>>, q: seq<nat>, i: nat, p: seq<nat>)
    requires |q| == |t| && TiesInOrder(t, q) && i <= |t|
    requires p == Later(q)[..i] + [0] + Later(q)[i..]
    requires forall j :: 0 <= j < i ==> t[j].score > x.score
    ensures |p| == |t| + 1 && TiesInOrder(t[..i] + [x] + t[i..], p)
  {
    var u := t[..i] + [x] + t[i..];
    forall a, b | 0 <= a < b < |p| && u[a].score == u[b].score ensures p[a] < p[b] {
      var k, l := if a < i then a else a - 1, if b < i then b else b - 1;
      assert a != i ==> u[a] == t[k] && p[a] == Later(q)[k] == q[k] + 1;
      assert b != i ==> u[b] == t[l] && p[b] == Later(q)[l] == q[l] + 1;
      assert a != i && b != i ==> q[k] < q[l];
    }
  }

  function Later(q: seq<nat>): seq<nat> { seq(|q|, j requires 0 <= j < |q| => q[j] + 1) }

  lemma LaterHas(q: seq<nat>, i: nat)
    ensures i in Later(q) <==> i > 0 && i - 1 in q
  {
    if i > 0 && i - 1 in q {
      var j :| 0 <= j < |q| && q[j] == i - 1;
      assert Later(q)[j] == i;
    }
  }

  /** A comprehension lists the positions that satisfy its test, in order. */
  lemma {:induction false} FilterPicks<T>(s: seq<T>, f: T -> bool) returns (p: seq<nat>)
    ensures Picks(s, Filter(s, f), p) && Increasing(p)
    ensures forall i :: 0 <= i < |s| ==> (i in p <==> f(s[i]))
  {
    if s == [] {
      p := [];
    } else {
      var q := FilterPicks(s[1..], f);
      p := if f(s[0]) then [0] + Later(q) else Later(q);
      FilterPicked(s, f, q);
      forall i | 0 <= i < |s| ensures i in p <==> f(s[i]) {
        LaterHas(q, i);
        if i > 0 { assert s[i] == s[1..][i - 1]; }
      }
    }
  }

  lemma FilterPicked<T>(s: seq<T>, f: T -> bool, q: seq<nat>)
    requires s != [] && Picks(s[1..], Filter(s[1..], f), q) && Increasing(q)
    ensures var p := if f(s[0]) then [0] + Later(q) else Later(q); Picks(s, Filter(s, f), p) && Increasing(p)
  {
    LaterPicks(s, Filter(s[1..], f), q);
    if f(s[0]) { FirstPicked(s, Filter(s[1..], f), Later(q)); }
  }

  lemma LaterPicks<T>(s: seq<T>, t: seq<T>, q: seq<nat>)
    requires s != [] && Picks(s[1..], t, q) && Increasing(q)
    ensures Picks(s, t, Later(q)) && Increasing(Later(q)) && forall j :: 0 <= j < |q| ==> Later(q)[j] > 0
  {
    var p := Later(q);
    forall j | 0 <= j < |q| ensures p[j] < |s| && t[j] == s[p[j]] { assert t[j] == s[1..][q[j]]; }
  }

  lemma FirstPicked<T>(s: seq<T>, t: seq<T>, p: seq<nat>)
    requires s != [] && Picks(s, t, p) && Increasing(p) && forall j :: 0 <= j < |p| ==> p[j] > 0
    ensures Picks(s, [s[0]] + t, [0] + p) && Increasing([0] + p)
  {
  }

  /** Length of the leading part of `s` whose scores reach `v`. */
  function Lead<T>(s: seq<Scored<T>>, v: real): (n: nat)
    ensures n <= |s|
    ensures forall i :: 0 <= i < n ==> s[i].score >= v
    ensures n < |s| ==> s[n].score < v
  {
    if s == [] || s[0].score < v then 0 else 1 + Lead(s[1..], v)
  }

  ghost predicate SameLeads<T>(a: seq<Scored<T>>, b: seq<Scored<T>>) {
    forall v :: Lead(a, v) == Lead(b, v)
  }

  /** A descending score list is determined by how many entries reach each score. */
  lemma LeadsDetermineScores<T>(a: seq<Scored<T>>, b: seq<Scored<T>>)
    requires Descending(a) && Descending(b) && SameLeads(a, b)
    ensures Scores(a) == Scores(b)
  {
    forall i | 0 <= i < |a| ensures i < |b| && b[i].score >= a[i].score { ScoreNoHigher(a, b, i); }
    forall i | 0 <= i < |b| ensures i < |a| && a[i].score >= b[i].score { ScoreNoHigher(b, a, i); }
    if |b| < |a| { ScoreNoHigher(a, b, |b|); }
    if |a| < |b| { ScoreNoHigher(b, a, |a|); }
  }

  lemma ScoreNoHigher<T>(a: seq<Scored<T>>, b: seq<Scored<T>>, i: nat)
    requires Descending(a) && SameLeads(a, b) && i < |a|
    ensures i < |b| && b[i].score >= a[i].score
  {
    var v := a[i].score;
    LeadPast(a, v, i);
    assert Lead(a, v) == Lead(b, v);
  }

  lemma LeadPast<T>(s: seq<Scored<T>>, v: real, i: nat)
    requires Descending(s) && i < |s| && s[i].score >= v
    ensures i < Lead(s, v)
  {
  }
}
