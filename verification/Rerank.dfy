/** Reranking and the hybrid collection query (retrieval/utils.py). */
module Rerank {
  import opened Lists
  import opened Ranking
  import opened Retrieval
  import opened CollectionQuery

  /** A zero threshold cuts nothing. */
  function Eligible<T>(s: seq<Scored<T>>, r: real): seq<Scored<T>> {
    if r != 0.0 then Filter(s, AtLeast(r)) else s
  }

  function Reranked<T>(s: seq<Scored<T>>, r: real, topN: int): seq<Scored<T>> {
    Slice(SortDesc(Eligible(s, r)), topN)
  }

  ghost function WithScore<T>(s: seq<Scored<T>>, v: real): seq<Scored<T>> {
    Filter(s, HasScore(v))
  }

  /** The best `topN` of the eligible entries; `rest` is what was cut. */
  lemma RerankMeaning<T>(s: seq<Scored<T>>, r: real, topN: nat) returns (rest: seq<Scored<T>>)
    ensures var out := Reranked(s, r, topN);
      && |out| == Min(topN, |Eligible(s, r)|)
      && Descending(out + rest)
      && multiset(out + rest) == multiset(Eligible(s, r))
      && (forall o :: o in out ==> o in s && (r == 0.0 || o.score >= r))
  {
    var e := Eligible(s, r);
    SortSorts(e);
    SortKeeps(e);
    rest := SortDesc(e)[|Reranked(s, r, topN)|..];
    assert SortDesc(e) == Reranked(s, r, topN) + rest;
    RerankedEligible(s, r, topN);
  }

  lemma RerankedEligible<T>(s: seq<Scored<T>>, r: real, topN: int)
    ensures forall o :: o in Reranked(s, r, topN) ==> o in s && (r == 0.0 || o.score >= r)
  {
    forall o | o in Reranked(s, r, topN) ensures o in s && (r == 0.0 || o.score >= r) {
      var i :| 0 <= i < |Reranked(s, r, topN)| && Reranked(s, r, topN)[i] == o;
      RerankedFrom(s, r, topN, i);
    }
  }

  lemma PrefixWithScore<T>(s: seq<Scored<T>>, n: nat, v: real)
    requires n <= |s|
    ensures WithScore(s[..n], v) <= WithScore(s, v)
  {
    assert s == s[..n] + s[n..];
    FilterConcat(s[..n], s[n..], HasScore(v));
  }

  /** Kept entries of one score are the first such entries of the input, in input order. */
  lemma RerankTies<T>(s: seq<Scored<T>>, r: real, topN: nat, v: real)
    requires r == 0.0 || v >= r
    ensures WithScore(Reranked(s, r, topN), v) <= WithScore(s, v)
  {
    var e := Eligible(s, r);
    var out := Reranked(s, r, topN);
    SortStable(e, v);
    PrefixWithScore(SortDesc(e), |out|, v);
    assert out == SortDesc(e)[..|out|];
    if r != 0.0 { EligibleWithScore(s, r, v); }
  }

  lemma EligibleMeaning<T>(s: seq<Scored<T>>, r: real)
    ensures forall i :: 0 <= i < |Eligible(s, r)| ==>
      Eligible(s, r)[i] in s && (r == 0.0 || Eligible(s, r)[i].score >= r)
  {
    FilterMeaning(s, AtLeast(r));
  }

  lemma RerankedFrom<T>(s: seq<Scored<T>>, r: real, topN: int, i: nat)
    requires i < |Reranked(s, r, topN)|
    ensures Reranked(s, r, topN)[i] in s && (r == 0.0 || Reranked(s, r, topN)[i].score >= r)
  {
    var e := Eligible(s, r);
    EligibleMeaning(s, r);
    SortKeeps(e);
    assert SortDesc(e)[i] in e;
  }

  lemma {:induction false} EligibleWithScore<T>(s: seq<Scored<T>>, r: real, v: real)
    requires r != 0.0 && v >= r
    ensures WithScore(Eligible(s, r), v) == WithScore(s, v)
  {
    if s != [] {
      EligibleWithScore(s[1..], r, v);
      var p := HasScore<T>(v);
      assert s == [s[0]] + s[1..];
      FilterConcat([s[0]], s[1..], p);
      FilterConcat([s[0]], Eligible(s[1..], r), p);
    }
  }

  // ---------- which entries are kept, by position ----------

  predicate Reaches(v: real, r: real) { r == 0.0 || v >= r }

  /** The entry at `a` goes before the one at `b`: by score, then by position. */
  ghost predicate Ahead(scores: seq<real>, a: nat, b: nat) requires a < |scores| && b < |scores| {
    scores[a] > scores[b] || (scores[a] == scores[b] && a < b)
  }

  /** The positions of the best of the scores that reach `r`, best first, as many as the cut keeps. */
  ghost predicate Best(scores: seq<real>, r: real, topN: int, p: seq<nat>) {
    && (forall j :: 0 <= j < |p| ==> p[j] < |scores| && Reaches(scores[p[j]], r))
    && (forall i, j :: 0 <= i < j < |p| ==> Ahead(scores, p[i], p[j]))
    && (forall i, j :: 0 <= i < |scores| && Reaches(scores[i], r) && i !in p && 0 <= j < |p| ==> Ahead(scores, p[j], i))
    && |p| == Kept(topN, |set i | 0 <= i < |scores| && Reaches(scores[i], r)|)
  }

  lemma EligiblePicks<T>(s: seq<Scored<T>>, r: real) returns (q: seq<nat>)
    ensures Picks(s, Eligible(s, r), q) && Increasing(q)
    ensures forall i :: 0 <= i < |s| ==> (i in q <==> Reaches(s[i].score, r))
  {
    if r != 0.0 {
      q := FilterPicks(s, AtLeast(r));
    } else {
      q := seq(|s|, i requires 0 <= i < |s| => i);
      assert forall i :: 0 <= i < |s| ==> q[i] in q;
    }
  }

  function UpTo(n: nat): set<nat> { if n == 0 then {} else UpTo(n - 1) + {n - 1} }

  lemma {:induction false} UpToMeaning(n: nat)
    ensures |UpTo(n)| == n && forall i: nat :: i in UpTo(n) <==> i < n
  {
    if n > 0 { UpToMeaning(n - 1); }
  }

  /** Distinct positions below their number are all of them. */
  lemma Covers(p: seq<nat>, i: nat)
    requires NoDups(p) && (forall j :: 0 <= j < |p| ==> p[j] < |p|) && i < |p|
    ensures i in p
  {
    NoDupsCardinality(p);
    UpToMeaning(|p|);
    assert Elements(p) <= UpTo(|p|);
    SubsetCardinality(Elements(p), UpTo(|p|));
    assert i in UpTo(|p|);
  }

  function Through(q: seq<nat>, o: seq<nat>): seq<nat> requires forall j :: 0 <= j < |o| ==> o[j] < |q| {
    seq(|o|, j requires 0 <= j < |o| => q[o[j]])
  }

  /** Picking from what was picked. */
  lemma PicksThrough<T>(s: seq<T>, e: seq<T>, t: seq<T>, q: seq<nat>, o: seq<nat>)
    requires Picks(s, e, q) && Picks(e, t, o)
    ensures Picks(s, t, Through(q, o))
  {
    forall j | 0 <= j < |o| ensures t[j] == s[q[o[j]]] { assert t[j] == e[o[j]]; }
  }

  lemma ThroughCovers(q: seq<nat>, o: seq<nat>, i: nat)
    requires |o| == |q| && NoDups(o) && forall j :: 0 <= j < |o| ==> o[j] < |q|
    ensures i in Through(q, o) <==> i in q
  {
    if i in q {
      var a :| 0 <= a < |q| && q[a] == i;
      Covers(o, a);
      var j :| 0 <= j < |o| && o[j] == a;
      assert Through(q, o)[j] == i;
    }
  }

  lemma ThroughOrdered<T>(s: seq<Scored<T>>, e: seq<Scored<T>>, t: seq<Scored<T>>, q: seq<nat>, o: seq<nat>)
    requires Picks(s, e, q) && Increasing(q) && Picks(e, t, o) && TiesInOrder(t, o) && Descending(t)
    ensures var f := Through(q, o);
      (forall j :: 0 <= j < |f| ==> f[j] < |s|) && forall i, j :: 0 <= i < j < |f| ==> Ahead(Scores(s), f[i], f[j])
  {
    PicksThrough(s, e, t, q, o);
    var f := Through(q, o);
    forall i, j | 0 <= i < j < |f| ensures Ahead(Scores(s), f[i], f[j]) {
      assert t[i] == s[f[i]] && t[j] == s[f[j]] && t[i].score >= t[j].score;
      assert t[i].score == t[j].score ==> o[i] < o[j];
    }
  }

  /** The sorted eligible entries by their positions in the input. */
  lemma SortedPicks<T>(s: seq<Scored<T>>, r: real) returns (f: seq<nat>)
    ensures Picks(s, SortDesc(Eligible(s, r)), f)
    ensures forall i, j :: 0 <= i < j < |f| ==> Ahead(Scores(s), f[i], f[j])
    ensures forall i :: 0 <= i < |s| ==> (i in f <==> Reaches(s[i].score, r))
  {
    var e := Eligible(s, r);
    var q := EligiblePicks(s, r);
    var o := SortPicks(e);
    SortSorts(e);
    f := Through(q, o);
    PicksThrough(s, e, SortDesc(e), q, o);
    ThroughOrdered(s, e, SortDesc(e), q, o);
    forall i | 0 <= i < |s| ensures i in f <==> Reaches(s[i].score, r) { ThroughCovers(q, o, i); }
  }

  lemma CountOf(f: seq<nat>, s: set<nat>)
    requires NoDups(f) && forall i :: i in f <==> i in s
    ensures |f| == |s|
  {
    NoDupsCardinality(f);
    assert Elements(f) == s;
  }

  /** Reranking keeps the best of the entries that reach the threshold, ties by position. */
  lemma RerankPicks<T>(s: seq<Scored<T>>, r: real, topN: int) returns (p: seq<nat>)
    ensures Picks(s, Reranked(s, r, topN), p) && Best(Scores(s), r, topN, p)
  {
    var f := SortedPicks(s, r);
    var scores := Scores(s);
    var passing := set i: nat | i < |scores| && Reaches(scores[i], r);
    assert passing == set i | 0 <= i < |scores| && Reaches(scores[i], r);
    forall i ensures i in f <==> i in passing {
      if i in f { var j :| 0 <= j < |f| && f[j] == i; }
    }
    CountOf(f, passing);
    SliceMeaning(SortDesc(Eligible(s, r)), topN);
    var n := Kept(topN, |f|);
    p := f[..n];
    forall i, j | 0 <= i < |scores| && Reaches(scores[i], r) && i !in p && 0 <= j < |p| ensures Ahead(scores, p[j], i) {
      var l := IndexBeyond(f, n, i);
      assert f[j] == p[j];
    }
    forall j | 0 <= j < |p| ensures p[j] < |scores| && Reaches(scores[p[j]], r) { assert f[j] in f; }
  }

  // ---------- compress_documents, over metadata objects that documents may share ----------

  class Metadata {
    var score: Option<real>
    const fields: Meta
    constructor (fields: Meta, score: Option<real>)
      ensures this.fields == fields && this.score == score
    {
      this.fields, this.score := fields, score;
    }
  }

  datatype Document = Document(text: string, meta: Metadata)

  function Zip(docs: seq<Document>, scores: seq<real>): (r: seq<Scored<Document>>)
    ensures |r| == Min(|docs|, |scores|) && forall i :: 0 <= i < |r| ==> r[i] == Scored(scores[i], docs[i])
  {
    seq(Min(|docs|, |scores|), i requires 0 <= i < Min(|docs|, |scores|) => Scored(scores[i], docs[i]))
  }

  /** The score `m` holds after the entries of `kept` were written in turn. */
  function LastScore(kept: seq<Scored<Document>>, m: Metadata, before: Option<real>): Option<real> {
    if kept == [] then before
    else if kept[|kept| - 1].item.meta == m then Some(kept[|kept| - 1].score)
    else LastScore(kept[..|kept| - 1], m, before)
  }

  lemma LastScoreStep(kept: seq<Scored<Document>>, i: nat, m: Metadata, before: Option<real>)
    requires i < |kept|
    ensures LastScore(kept[..i + 1], m, before) ==
      if m == kept[i].item.meta then Some(kept[i].score) else LastScore(kept[..i], m, before)
  {
    assert kept[..i + 1][..i] == kept[..i];
  }

  /** Each score is written into the metadata of the input document, and a new document is built on a copy of it.
      `picks` are the positions of the documents that are returned. */
  method CompressDocuments(docs: seq<Document>, scores: Option<seq<real>>, r: real, topN: int)
    returns (out: seq<Document>, ghost picks: seq<nat>)
    modifies set d | d in docs :: d.meta
    ensures scores.None? ==> out == docs && forall d :: d in docs ==> d.meta.score == old(d.meta.score)
    ensures scores.Some? ==>
      && Best(scores.value[..Min(|docs|, |scores.value|)], r, topN, picks)
      && |out| == |picks| && (forall j :: 0 <= j < |picks| ==> Returned(docs, scores.value, picks[j], out[j]))
      && (forall d :: d in out ==> fresh(d.meta))
      && (forall i, j :: 0 <= i < j < |out| ==> out[i].meta != out[j].meta)
    ensures scores.Some? ==>
      var kept := Reranked(Zip(docs, scores.value), r, topN);
      && Copies(out, kept)
      && forall d :: d in docs ==> d.meta.score == LastScore(kept, d.meta, old(d.meta.score))
  {
    picks := [];
    if scores.None? { return docs, []; }
    var pairs := Zip(docs, scores.value);
    var eligible := if r != 0.0 then Filter(pairs, AtLeast(r)) else pairs;
    var kept := Slice(SortDesc(eligible), topN);
    picks := ZipPicks(docs, scores.value, r, topN);
    out := WriteScores(docs, kept);
    assert forall j :: 0 <= j < |picks| ==> CopyOf(out[j], kept[j]);
  }

  lemma ZipPicks(docs: seq<Document>, scores: seq<real>, r: real, topN: int) returns (picks: seq<nat>)
    ensures Best(scores[..Min(|docs|, |scores|)], r, topN, picks)
    ensures var kept := Reranked(Zip(docs, scores), r, topN);
      && |kept| == |picks|
      && forall j :: 0 <= j < |kept| ==>
           picks[j] < |docs| && picks[j] < |scores| && kept[j] == Scored(scores[picks[j]], docs[picks[j]])
  {
    var pairs := Zip(docs, scores);
    picks := RerankPicks(pairs, r, topN);
    assert Scores(pairs) == scores[..Min(|docs|, |scores|)];
  }

  /** The new document for the one at position `i`. */
  ghost predicate Returned(docs: seq<Document>, scores: seq<real>, i: nat, d: Document) reads d.meta {
    && i < |docs| && i < |scores|
    && d.text == docs[i].text && d.meta.fields == docs[i].meta.fields && d.meta.score == Some(scores[i])
  }

  ghost predicate CopyOf(d: Document, h: Scored<Document>) reads d.meta {
    d.text == h.item.text && d.meta.fields == h.item.meta.fields && d.meta.score == Some(h.score)
  }

  /** The documents of `kept` in order, each with a metadata object of its own that holds its own score. */
  ghost predicate Copies(out: seq<Document>, kept: seq<Scored<Document>>) reads set d | d in out :: d.meta {
    && |out| == |kept|
    && (forall i :: 0 <= i < |kept| ==> CopyOf(out[i], kept[i]))
    && (forall i, j :: 0 <= i < j < |out| ==> out[i].meta != out[j].meta)
  }

  method WriteScore(h: Scored<Document>) returns (d: Document)
    modifies h.item.meta
    ensures fresh(d.meta) && CopyOf(d, h) && h.item.meta.score == Some(h.score)
  {
    h.item.meta.score := Some(h.score);
    var copy := new Metadata(h.item.meta.fields, h.item.meta.score);
    d := Document(h.item.text, copy);
  }

  method WriteScores(docs: seq<Document>, kept: seq<Scored<Document>>) returns (out: seq<Document>)
    requires forall i :: 0 <= i < |kept| ==> kept[i].item in docs
    modifies set d | d in docs :: d.meta
    ensures Copies(out, kept) && forall d :: d in out ==> fresh(d.meta)
    ensures forall d :: d in docs ==> d.meta.score == LastScore(kept, d.meta, old(d.meta.score))
  {
    out := [];
    for i := 0 to |kept|
      invariant |out| == i && forall j :: 0 <= j < i ==> CopyOf(out[j], kept[j]) && fresh(out[j].meta)
      invariant forall j, l :: 0 <= j < l < i ==> out[j].meta != out[l].meta
      invariant forall d :: d in docs ==> d.meta.score == LastScore(kept[..i], d.meta, old(d.meta.score))
    {
      forall d | d in docs
        ensures LastScore(kept[..i + 1], d.meta, old(d.meta.score)) ==
          if d.meta == kept[i].item.meta then Some(kept[i].score) else LastScore(kept[..i], d.meta, old(d.meta.score))
      {
        LastScoreStep(kept, i, d.meta, old(d.meta.score));
      }
      var d := WriteScore(kept[i]);
      out := out + [d];
    }
    assert kept[..|kept|] == kept;
  }

  ghost predicate OwnScore(kept: seq<Scored<Document>>, i: nat, before: Option<real>) requires i < |kept| {
    LastScore(kept, kept[i].item.meta, before) == Some(kept[i].score)
  }

  /** The kept input documents end up reading their own scores exactly when those sharing a metadata object share the
      score. */
  lemma OwnScores(kept: seq<Scored<Document>>, before: Option<real>)
    ensures (forall i :: 0 <= i < |kept| ==> OwnScore(kept, i, before))
       <==> (forall i, j :: 0 <= i < j < |kept| && kept[i].item.meta == kept[j].item.meta ==>
               kept[i].score == kept[j].score)
  {
    if forall i :: 0 <= i < |kept| ==> OwnScore(kept, i, before) {
      forall i, j | 0 <= i < j < |kept| && kept[i].item.meta == kept[j].item.meta
        ensures kept[i].score == kept[j].score
      {
        assert OwnScore(kept, i, before) && OwnScore(kept, j, before);
      }
    } else {
      var i :| 0 <= i < |kept| && !OwnScore(kept, i, before);
      var j := LastScoreAt(kept, i, before);
      assert i < j && kept[i].score != kept[j].score;
    }
  }

  lemma {:induction false} LastScoreAt(kept: seq<Scored<Document>>, i: nat, before: Option<real>) returns (j: nat)
    requires i < |kept|
    ensures i <= j < |kept| && kept[j].item.meta == kept[i].item.meta
    ensures LastScore(kept, kept[i].item.meta, before) == Some(kept[j].score)
  {
    if kept[|kept| - 1].item.meta == kept[i].item.meta {
      j := |kept| - 1;
    } else {
      j := LastScoreAt(kept[..|kept| - 1], i, before);
    }
  }
}
