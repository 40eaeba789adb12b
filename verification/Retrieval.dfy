/** Merging of vector search results (retrieval/utils.py). */
module Retrieval {
  import opened Lists
  import opened Ranking

  type Meta = map<string, string>

  /** A JSON value in a result column: a text, or a metadata dict. */
  datatype Cell = Text(text: string) | Dict(dict: Meta)

  /** One result dict: three columns, each a list holding one list (or none). */
  datatype QueryResult = QueryResult(distances: seq<seq<real>>, documents: seq<seq<Cell>>, metadatas: seq<seq<Cell>>)

  datatype Doc = Doc(text: string, meta: Cell)

  type Hit = Scored<Doc>

  datatype MergeError = NotEnoughValues

  // ---------- the hits a list of results holds ----------

  /** `zip` of the columns, keeping only the rows whose document is a text. */
  function ZipHits(distances: seq<real>, documents: seq<Cell>, metadatas: seq<Cell>): (r: seq<Hit>) {
    if distances == [] || documents == [] || metadatas == [] then []
    else
      (match documents[0]
       case Text(t) => [Scored(distances[0], Doc(t, metadatas[0]))]
       case Dict(_) => [])
      + ZipHits(distances[1..], documents[1..], metadatas[1..])
  }

  /** The `i`-th row is full, its document is a text, and `h` is what it says. */
  ghost predicate RowIs(distances: seq<real>, documents: seq<Cell>, metadatas: seq<Cell>, i: nat, h: Hit) {
    && i < |distances| && i < |documents| && i < |metadatas|
    && documents[i] == Text(h.item.text) && distances[i] == h.score && metadatas[i] == h.item.meta
  }

  /** One hit for each full row whose document is a text. */
  lemma {:induction false} ZipHitsMeaning(distances: seq<real>, documents: seq<Cell>, metadatas: seq<Cell>, h: Hit)
    ensures h in ZipHits(distances, documents, metadatas) <==> exists i :: RowIs(distances, documents, metadatas, i, h)
  {
    if distances != [] && documents != [] && metadatas != [] {
      var a, b, c := distances[1..], documents[1..], metadatas[1..];
      ZipHitsMeaning(a, b, c, h);
      assert forall i: nat :: RowIs(a, b, c, i, h) <==> RowIs(distances, documents, metadatas, i + 1, h);
      if i: nat :| RowIs(distances, documents, metadatas, i, h) {
        if i > 0 { assert RowIs(a, b, c, i - 1, h); }
      }
      assert RowIs(distances, documents, metadatas, 0, h)
        <==> documents[0] == Text(h.item.text) && distances[0] == h.score && metadatas[0] == h.item.meta;
      if i: nat :| RowIs(a, b, c, i, h) { assert RowIs(distances, documents, metadatas, i + 1, h); }
    }
  }

  function HitsOf(data: QueryResult): seq<Hit> {
    if |data.distances| == 0 || |data.documents| == 0 || |data.metadatas| == 0 then []
    else ZipHits(data.distances[0], data.documents[0], data.metadatas[0])
  }

  /** A result holds the text rows of the first list of each column, and nothing when a column has no list. */
  lemma HitsMeaning(data: QueryResult, h: Hit)
    ensures h in HitsOf(data) <==>
      && data.distances != [] && data.documents != [] && data.metadatas != []
      && exists i :: RowIs(data.distances[0], data.documents[0], data.metadatas[0], i, h)
  {
    if data.distances != [] && data.documents != [] && data.metadatas != [] {
      ZipHitsMeaning(data.distances[0], data.documents[0], data.metadatas[0], h);
    }
  }

  function AllHits(results: seq<QueryResult>): seq<Hit> {
    if results == [] then [] else AllHits(results[..|results| - 1]) + HitsOf(results[|results| - 1])
  }

  lemma AllHitsStep(results: seq<QueryResult>, i: nat)
    requires i < |results|
    ensures AllHits(results[..i + 1]) == AllHits(results[..i]) + HitsOf(results[i])
  {
    assert results[..i + 1][..i] == results[..i];
  }

  lemma AllHitsAppend(a: seq<QueryResult>, d: QueryResult)
    ensures AllHits(a + [d]) == AllHits(a) + HitsOf(d)
  {
  }

  /** The results are gone through in turn. */
  lemma {:induction false} AllHitsInTurn(a: seq<QueryResult>, b: seq<QueryResult>)
    ensures AllHits(a + b) == AllHits(a) + AllHits(b)
    decreases |b|
  {
    if b == [] {
      assert a + b == a;
    } else {
      var front, d := b[..|b| - 1], b[|b| - 1];
      assert a + b == (a + front) + [d] && b == front + [d];
      AllHitsInTurn(a, front);
      AllHitsAppend(a + front, d);
      AllHitsAppend(front, d);
      Associative(AllHits(a), AllHits(front), HitsOf(d));
    }
  }

  lemma Associative(a: seq<Hit>, b: seq<Hit>, c: seq<Hit>)
    ensures (a + b) + c == a + (b + c)
  {
  }

  // ---------- the `combined` dict ----------

  /** Python dict from text to best hit, with its insertion order. */
  datatype Table = Table(order: seq<string>, best: map<string, Hit>) {
    ghost predicate Valid() { NoDups(order) && Elements(order) == best.Keys }
    function Values(): seq<Hit> requires Valid() {
      seq(|order|, i requires 0 <= i < |order| => assert order[i] in Elements(order); best[order[i]])
    }
  }

  function Absorb(t: Table, h: Hit): Table {
    if h.item.text !in t.best then Table(t.order + [h.item.text], t.best[h.item.text := h])
    else if h.score > t.best[h.item.text].score then t.(best := t.best[h.item.text := h])
    else t
  }

  function Absorbed(hits: seq<Hit>): Table {
    if hits == [] then Table([], map[]) else Absorb(Absorbed(hits[..|hits| - 1]), hits[|hits| - 1])
  }

  lemma AbsorbedStep(hits: seq<Hit>, h: Hit)
    ensures Absorbed(hits + [h]) == Absorb(Absorbed(hits), h)
  {
  }

  ghost function Texts(hits: seq<Hit>): set<string> { set h | h in hits :: h.item.text }

  /** `h` is the first hit of its text that reaches the best score of that text. */
  ghost predicate FirstBest(hits: seq<Hit>, h: Hit) {
    exists i :: 0 <= i < |hits| && hits[i] == h && BestAt(hits, i)
  }

  ghost predicate BestAt(hits: seq<Hit>, i: nat) requires i < |hits| {
    && (forall j :: 0 <= j < |hits| && hits[j].item.text == hits[i].item.text ==> hits[j].score <= hits[i].score)
    && (forall j :: 0 <= j < i && hits[j].item.text == hits[i].item.text ==> hits[j].score < hits[i].score)
  }

  ghost predicate Represents(t: Table, hits: seq<Hit>) {
    && t.Valid()
    && t.best.Keys == Texts(hits)
    && forall x :: x in t.best ==> t.best[x].item.text == x && FirstBest(hits, t.best[x])
  }

  lemma FirstBestExtends(hits: seq<Hit>, h: Hit, b: Hit)
    requires FirstBest(hits, b)
    requires b.item.text == h.item.text ==> h.score <= b.score
    ensures FirstBest(hits + [h], b)
  {
    var i :| 0 <= i < |hits| && hits[i] == b && BestAt(hits, i);
    assert (hits + [h])[i] == b && BestAt(hits + [h], i);
  }

  lemma FirstBestLast(hits: seq<Hit>, h: Hit)
    requires forall j :: 0 <= j < |hits| && hits[j].item.text == h.item.text ==> hits[j].score < h.score
    ensures FirstBest(hits + [h], h)
  {
    assert (hits + [h])[|hits|] == h && BestAt(hits + [h], |hits|);
  }

  lemma AbsorbValid(t: Table, h: Hit)
    requires t.Valid()
    ensures Absorb(t, h).Valid() && Absorb(t, h).best.Keys == t.best.Keys + {h.item.text}
  {
  }

  lemma AbsorbedText(t: Table, hits: seq<Hit>, h: Hit)
    requires Represents(t, hits)
    ensures FirstBest(hits + [h], Absorb(t, h).best[h.item.text])
  {
    var x := h.item.text;
    if x in t.best && h.score <= t.best[x].score {
      FirstBestExtends(hits, h, t.best[x]);
    } else {
      forall j | 0 <= j < |hits| && hits[j].item.text == x ensures hits[j].score < h.score {
        assert x in Texts(hits);
        var i :| 0 <= i < |hits| && hits[i] == t.best[x] && BestAt(hits, i);
      }
      FirstBestLast(hits, h);
    }
  }

  lemma AbsorbRepresents(t: Table, hits: seq<Hit>, h: Hit)
    requires Represents(t, hits)
    ensures Represents(Absorb(t, h), hits + [h])
  {
    var t' := Absorb(t, h);
    AbsorbValid(t, h);
    assert Texts(hits + [h]) == Texts(hits) + {h.item.text};
    forall y | y in t'.best ensures t'.best[y].item.text == y && FirstBest(hits + [h], t'.best[y]) {
      if y == h.item.text {
        AbsorbedText(t, hits, h);
      } else {
        FirstBestExtends(hits, h, t.best[y]);
      }
    }
  }

  /** The dict holds, under each text seen, the first hit that reaches its best score. */
  lemma {:induction false} AbsorbedRepresents(hits: seq<Hit>)
    ensures Represents(Absorbed(hits), hits)
  {
    if hits != [] {
      var p := hits[..|hits| - 1];
      AbsorbedRepresents(p);
      AbsorbRepresents(Absorbed(p), p, hits[|hits| - 1]);
      assert p + [hits[|hits| - 1]] == hits;
    }
  }

  // ---------- merge_and_sort_query_results ----------

  function Ranked(hits: seq<Hit>): seq<Hit> {
    AbsorbedRepresents(hits);
    SortDesc(Absorbed(hits).Values())
  }

  /** `zip(*combined[:k]) if combined else ([], [], [])`: unpacking an empty slice raises. */
  function Merged(hits: seq<Hit>, k: int): Result<seq<Hit>, MergeError> {
    var all := Ranked(hits);
    if all != [] && Slice(all, k) == [] then Failure(NotEnoughValues) else Success(Slice(all, k))
  }

  method AbsorbColumns(t: Table, ghost seen: seq<Hit>, data: QueryResult) returns (t': Table)
    requires t == Absorbed(seen)
    requires |data.distances| > 0 && |data.documents| > 0 && |data.metadatas| > 0
    ensures t' == Absorbed(seen + HitsOf(data))
  {
    var distances, documents, metadatas := data.distances[0], data.documents[0], data.metadatas[0];
    var order, best := t.order, t.best;
    ghost var done: seq<Hit> := seen;
    var j := 0;
    while j < |distances| && j < |documents| && j < |metadatas|
      invariant j <= |distances| && j <= |documents| && j <= |metadatas|
      invariant Table(order, best) == Absorbed(done)
      invariant done + ZipHits(distances[j..], documents[j..], metadatas[j..]) == seen + HitsOf(data)
    {
      if documents[j].Text? {
        var h := Scored(distances[j], Doc(documents[j].text, metadatas[j]));
        if h.item.text !in best {
          order, best := order + [h.item.text], best[h.item.text := h];
        } else if h.score > best[h.item.text].score {
          best := best[h.item.text := h];
        }
        AbsorbedStep(done, h);
        done := done + [h];
      }
      j := j + 1;
    }
    assert done + [] == done;
    t' := Table(order, best);
  }

  method MergeAndSort(results: seq<QueryResult>, k: int) returns (r: Result<seq<Hit>, MergeError>)
    ensures r == Merged(AllHits(results), k)
  {
    var combined := Table([], map[]);
    var i := 0;
    while i < |results|
      invariant 0 <= i <= |results|
      invariant combined == Absorbed(AllHits(results[..i]))
    {
      var data := results[i];
      ghost var seen := AllHits(results[..i]);
      AllHitsStep(results, i);
      assert seen + [] == seen;
      i := i + 1;
      if |data.distances| == 0 || |data.documents| == 0 || |data.metadatas| == 0 {
        continue;
      }
      combined := AbsorbColumns(combined, seen, data);
    }
    assert results[..i] == results;
    AbsorbedRepresents(AllHits(results));
    var values := SortDesc(combined.Values());
    if values != [] && Slice(values, k) == [] {
      return Failure(NotEnoughValues);
    }
    return Success(Slice(values, k));
  }

  // ---------- what the merge means ----------

  ghost predicate DistinctTexts(s: seq<Hit>) {
    forall i, j :: 0 <= i < j < |s| ==> s[i].item.text != s[j].item.text
  }

  /** The texts some hit of which reaches `v`. */
  ghost function Above(hits: seq<Hit>, v: real): set<string> {
    set h | h in hits && h.score >= v :: h.item.text
  }

  function TextsInOrder(s: seq<Hit>): (r: seq<string>)
    ensures |r| == |s| && forall i :: 0 <= i < |s| ==> r[i] == s[i].item.text
  {
    seq(|s|, i requires 0 <= i < |s| => s[i].item.text)
  }

  lemma DistinctTextsCount(s: seq<Hit>)
    ensures DistinctTexts(s) <==> |Texts(s)| == |s|
  {
    var t := TextsInOrder(s);
    assert Elements(t) == Texts(s) by {
      forall h | h in s ensures h.item.text in t { var i :| 0 <= i < |s| && s[i] == h; assert t[i] == h.item.text; }
      forall x | x in t ensures x in Texts(s) { var i :| 0 <= i < |t| && t[i] == x; assert s[i] in s; }
    }
    if DistinctTexts(s) { NoDupsCardinality(t); }
    if |Texts(s)| == |s| { CardinalityNoDups(t); }
  }

  lemma ValuesMeaning(t: Table, hits: seq<Hit>)
    requires Represents(t, hits)
    ensures DistinctTexts(t.Values()) && Texts(t.Values()) == Texts(hits)
    ensures forall h :: h in t.Values() ==> FirstBest(hits, h)
  {
    var v := t.Values();
    forall i | 0 <= i < |v| ensures v[i].item.text == t.order[i] && FirstBest(hits, v[i]) {
      assert t.order[i] in Elements(t.order);
    }
    forall x | x in Texts(hits) ensures x in Texts(v) {
      assert x in Elements(t.order);
      var i :| 0 <= i < |t.order| && t.order[i] == x;
      assert v[i] in v;
    }
    forall x | x in Texts(v) ensures x in Texts(hits) {
      var h :| h in v && h.item.text == x;
      var i :| 0 <= i < |v| && v[i] == h;
      assert t.order[i] in Elements(t.order);
    }
  }

  /** Before the cut: every text once, as its first best hit, in descending score. */
  lemma RankedMeaning(hits: seq<Hit>)
    ensures Descending(Ranked(hits)) && DistinctTexts(Ranked(hits))
    ensures Texts(Ranked(hits)) == Texts(hits) && |Ranked(hits)| == |Texts(hits)|
    ensures forall h :: h in Ranked(hits) ==> FirstBest(hits, h)
  {
    AbsorbedRepresents(hits);
    var t := Absorbed(hits);
    ValuesMeaning(t, hits);
    SortedMeaning(t.Values());
  }

  lemma SortedMeaning(s: seq<Hit>)
    requires DistinctTexts(s)
    ensures Descending(SortDesc(s)) && DistinctTexts(SortDesc(s))
    ensures Texts(SortDesc(s)) == Texts(s) && |SortDesc(s)| == |Texts(s)|
    ensures forall h :: h in SortDesc(s) ==> h in s
  {
    SortSorts(s);
    SortKeeps(s);
    DistinctTextsCount(s);
    assert Texts(SortDesc(s)) == Texts(s);
    DistinctTextsCount(SortDesc(s));
  }

  /** A negative `k` drops that many from the end; it fails exactly when the cut leaves nothing of something. */
  lemma MergeFailsExactly(hits: seq<Hit>, k: int)
    ensures Merged(hits, k).Failure? <==> Texts(hits) != {} && (k == 0 || |Texts(hits)| <= -k)
    ensures Merged(hits, k).Success? ==> Merged(hits, k).value == Ranked(hits)[..Kept(k, |Ranked(hits)|)]
  {
    RankedMeaning(hits);
    SliceMeaning(Ranked(hits), k);
  }

  /** The promise of the merge: as many of the best texts as the cut keeps, each once and at its best. */
  lemma MergeMeaning(hits: seq<Hit>, k: int)
    ensures k >= 1 ==> Merged(hits, k).Success?
    ensures Merged(hits, k).Success? ==>
      var out := Merged(hits, k).value;
      && |out| == Kept(k, |Texts(hits)|)
      && Descending(out) && DistinctTexts(out)
      && (forall h :: h in out ==> FirstBest(hits, h))
      && (forall h, o :: h in hits && h.item.text !in Texts(out) && o in out ==> h.score <= o.score)
  {
    MergeFailsExactly(hits, k);
    if Merged(hits, k).Success? { CutMeaning(hits, Kept(k, |Ranked(hits)|)); }
    RankedMeaning(hits);
  }

  lemma CutMeaning(hits: seq<Hit>, m: nat)
    requires m <= |Ranked(hits)|
    ensures var out := Ranked(hits)[..m];
      && Descending(out) && DistinctTexts(out)
      && (forall h :: h in out ==> FirstBest(hits, h))
      && (forall h, o :: h in hits && h.item.text !in Texts(out) && o in out ==> h.score <= o.score)
  {
    RankedMeaning(hits);
    var out := Ranked(hits)[..m];
    forall h, o | h in hits && h.item.text !in Texts(out) && o in out ensures h.score <= o.score {
      OmittedNoBetter(hits, m, h, o);
    }
  }

  /** Where the text first occurs. */
  ghost function FirstAt(hits: seq<Hit>, x: string): nat {
    if hits == [] || hits[0].item.text == x then 0 else 1 + FirstAt(hits[1..], x)
  }

  lemma {:induction false} FirstAtMeaning(hits: seq<Hit>, x: string)
    ensures if x in Texts(hits) then FirstAt(hits, x) < |hits| && hits[FirstAt(hits, x)].item.text == x
            else FirstAt(hits, x) == |hits|
    ensures forall j :: 0 <= j < FirstAt(hits, x) ==> hits[j].item.text != x
  {
    if hits != [] {
      FirstAtMeaning(hits[1..], x);
      assert Texts(hits) == Texts(hits[1..]) + {hits[0].item.text} by { assert hits == [hits[0]] + hits[1..]; }
    }
  }

  lemma FirstAtExtended(hits: seq<Hit>, h: Hit, x: string)
    requires x in Texts(hits)
    ensures FirstAt(hits + [h], x) == FirstAt(hits, x)
  {
    FirstAtMeaning(hits, x);
    FirstAtMeaning(hits + [h], x);
    var i := FirstAt(hits, x);
    assert (hits + [h])[i].item.text == x;
    assert forall j :: 0 <= j < |hits| ==> (hits + [h])[j] == hits[j];
    assert x in Texts(hits + [h]);
  }

  ghost predicate FirstEarlier(hits: seq<Hit>, x: string, y: string) { FirstAt(hits, x) < FirstAt(hits, y) }

  /** The dict keeps the texts in the order in which they first occur. */
  lemma {:induction false} AbsorbedOrder(hits: seq<Hit>, i: nat, j: nat)
    requires i < j < |Absorbed(hits).order|
    ensures FirstEarlier(hits, Absorbed(hits).order[i], Absorbed(hits).order[j])
  {
    var front, last := hits[..|hits| - 1], hits[|hits| - 1];
    assert hits == front + [last];
    AbsorbedRepresents(front);
    var before := Absorbed(front).order;
    OldTextStays(front, last, i);
    if j < |before| {
      AbsorbedOrder(front, i, j);
      OldTextStays(front, last, j);
    } else {
      NewTextLast(front, last);
    }
  }

  lemma OldTextStays(front: seq<Hit>, last: Hit, i: nat)
    requires i < |Absorbed(front).order|
    ensures var x := Absorbed(front).order[i]; FirstAt(front + [last], x) == FirstAt(front, x) < |front|
  {
    AbsorbedRepresents(front);
    var order := Absorbed(front).order;
    assert order[i] in Elements(order);
    FirstAtExtended(front, last, order[i]);
    FirstAtMeaning(front, order[i]);
  }

  lemma NewTextLast(front: seq<Hit>, last: Hit)
    requires last.item.text !in Texts(front)
    ensures FirstAt(front + [last], last.item.text) >= |front|
  {
    var hits := front + [last];
    FirstAtMeaning(hits, last.item.text);
    assert last in hits;
    forall j | 0 <= j < |front| ensures hits[j].item.text != last.item.text { assert front[j] in front; }
  }

  /** Entries of one score come in the order in which their texts first occur. */
  lemma MergeTies(hits: seq<Hit>, k: int, i: nat, j: nat)
    requires Merged(hits, k).Success? && i < j < |Merged(hits, k).value|
    requires Merged(hits, k).value[i].score == Merged(hits, k).value[j].score
    ensures FirstEarlier(hits, Merged(hits, k).value[i].item.text, Merged(hits, k).value[j].item.text)
  {
    AbsorbedRepresents(hits);
    var t := Absorbed(hits);
    var p := SortPicks(t.Values());
    SliceMeaning(Ranked(hits), k);
    var sorted := SortDesc(t.Values());
    assert sorted[i] == t.Values()[p[i]] && sorted[j] == t.Values()[p[j]];
    assert t.order[p[i]] in Elements(t.order) && t.order[p[j]] in Elements(t.order);
    AbsorbedOrder(hits, p[i], p[j]);
  }

  lemma OmittedNoBetter(hits: seq<Hit>, m: nat, h: Hit, o: Hit)
    requires m <= |Ranked(hits)|
    requires h in hits && h.item.text !in Texts(Ranked(hits)[..m]) && o in Ranked(hits)[..m]
    ensures h.score <= o.score
  {
    RankedMeaning(hits);
    var all := Ranked(hits);
    assert h.item.text in Texts(all);
    var b :| b in all && b.item.text == h.item.text;
    var i := IndexBeyond(all, m, b);
    var j :| 0 <= j < m && all[..m][j] == o;
    assert all[j].score >= all[i].score;
    BestBounds(hits, b, h);
  }

  lemma BestBounds(hits: seq<Hit>, b: Hit, h: Hit)
    requires FirstBest(hits, b) && h in hits && h.item.text == b.item.text
    ensures b in hits && h.score <= b.score
  {
  }

  // ---------- which hits matter ----------

  lemma LeadCountsAbove(hits: seq<Hit>, v: real)
    ensures Lead(Ranked(hits), v) == |Above(hits, v)|
  {
    RankedMeaning(hits);
    var all := Ranked(hits);
    var n := Lead(all, v);
    var top := all[..n];
    DistinctTextsCount(top);
    forall x | x in Above(hits, v) ensures x in Texts(top) {
      var h :| h in hits && h.score >= v && h.item.text == x;
      assert x in Texts(all);
      var b :| b in all && b.item.text == x;
      BestBounds(hits, b, h);
      var i :| 0 <= i < |all| && all[i] == b;
      LeadPast(all, v, i);
      assert top[i] in top;
    }
    forall x | x in Texts(top) ensures x in Above(hits, v) {
      var b :| b in top && b.item.text == x;
      assert b in all;
      BestBounds(hits, b, b);
    }
    assert Texts(top) == Above(hits, v);
  }

  lemma {:induction false} LeadOfCut<T>(s: seq<Scored<T>>, k: nat, v: real)
    ensures Lead(s[..Min(k, |s|)], v) == Min(k, Lead(s, v))
  {
  }

  ghost predicate SameReach(a: seq<Hit>, b: seq<Hit>, k: nat) {
    forall v :: Min(k, |Above(a, v)|) == Min(k, |Above(b, v)|)
  }

  /** The merged scores depend only on how many texts reach each score, up to `k`. */
  lemma ReachDeterminesScores(a: seq<Hit>, b: seq<Hit>, k: int)
    requires k >= 1 && SameReach(a, b, k)
    ensures Merged(a, k).Success? && Merged(b, k).Success?
    ensures Scores(Merged(a, k).value) == Scores(Merged(b, k).value)
  {
    MergeMeaning(a, k);
    MergeMeaning(b, k);
    var x, y := Merged(a, k).value, Merged(b, k).value;
    forall v ensures Lead(x, v) == Lead(y, v) {
      LeadOfCut(Ranked(a), k, v);
      LeadOfCut(Ranked(b), k, v);
      LeadCountsAbove(a, v);
      LeadCountsAbove(b, v);
      assert Min(k, |Above(a, v)|) == Min(k, |Above(b, v)|);
    }
    LeadsDetermineScores(x, y);
  }

  ghost predicate Holds(results: seq<QueryResult>, i: nat, h: Hit) { i < |results| && h in HitsOf(results[i]) }

  lemma HoldsStep(results: seq<QueryResult>, h: Hit)
    requires results != []
    ensures var n := |results| - 1;
      (exists i :: Holds(results, i, h)) <==> (exists i :: Holds(results[..n], i, h)) || h in HitsOf(results[n])
  {
    var n := |results| - 1;
    assert Holds(results, n, h) <==> h in HitsOf(results[n]);
    assert forall i: nat :: Holds(results[..n], i, h) ==> Holds(results, i, h);
    assert forall i: nat :: Holds(results, i, h) && i != n ==> Holds(results[..n], i, h);
  }

  lemma {:induction false} InAllHits(results: seq<QueryResult>, h: Hit)
    ensures h in AllHits(results) <==> exists i :: Holds(results, i, h)
  {
    if results != [] {
      InAllHits(results[..|results| - 1], h);
      HoldsStep(results, h);
    }
  }

  lemma HitsCarryOver(results: seq<QueryResult>, others: seq<QueryResult>, h: Hit)
    requires Elements(results) <= Elements(others) && h in AllHits(results)
    ensures h in AllHits(others)
  {
    InAllHits(results, h);
    InAllHits(others, h);
    var i: nat :| Holds(results, i, h);
    assert results[i] in Elements(others);
    var j: nat :| j < |others| && others[j] == results[i];
    assert Holds(others, j, h);
  }

  /** Neither the order of the result lists nor repetition among them changes the scores. */
  lemma MergeIgnoresOrder(results: seq<QueryResult>, others: seq<QueryResult>, k: int)
    requires k >= 1 && Elements(results) == Elements(others)
    ensures var a, b := Merged(AllHits(results), k), Merged(AllHits(others), k);
      a.Success? && b.Success? && Scores(a.value) == Scores(b.value)
  {
    forall h ensures h in AllHits(results) <==> h in AllHits(others) {
      if h in AllHits(results) { HitsCarryOver(results, others, h); }
      if h in AllHits(others) { HitsCarryOver(others, results, h); }
    }
    SameHitsSameScores(AllHits(results), AllHits(others), k);
  }

  lemma SameHitsSameScores(a: seq<Hit>, b: seq<Hit>, k: int)
    requires k >= 1 && forall h :: h in a <==> h in b
    ensures Merged(a, k).Success? && Merged(b, k).Success?
    ensures Scores(Merged(a, k).value) == Scores(Merged(b, k).value)
  {
    forall v ensures Min(k, |Above(a, v)|) == Min(k, |Above(b, v)|) { assert Above(a, v) == Above(b, v); }
    ReachDeterminesScores(a, b, k);
  }

  // ---------- cutting each list first ----------

  /** What a vector store returns for one collection: distinct texts, best first. */
  ghost predicate IsRanking(s: seq<Hit>) { Descending(s) && DistinctTexts(s) }

  function Concat(lists: seq<seq<Hit>>): seq<Hit> {
    if lists == [] then [] else Concat(lists[..|lists| - 1]) + lists[|lists| - 1]
  }

  lemma {:induction false} InConcat(lists: seq<seq<Hit>>, h: Hit)
    ensures h in Concat(lists) <==> exists i :: 0 <= i < |lists| && h in lists[i]
  {
    if lists != [] {
      InConcat(lists[..|lists| - 1], h);
      if h in lists[|lists| - 1] { assert 0 <= |lists| - 1 < |lists|; }
    }
  }

  function Cut(lists: seq<seq<Hit>>, k: nat): (r: seq<seq<Hit>>)
    ensures |r| == |lists| && forall i :: 0 <= i < |lists| ==> r[i] == lists[i][..Min(k, |lists[i]|)]
  {
    seq(|lists|, i requires 0 <= i < |lists| => lists[i][..Min(k, |lists[i]|)])
  }

  /** A hit lost to the cut was beaten by `k` other texts of its own list. */
  lemma LostToBetter(list: seq<Hit>, k: nat, h: Hit)
    requires IsRanking(list) && h in list && h !in list[..Min(k, |list|)]
    ensures |list| > k && |Texts(list[..k])| == k
    ensures forall o :: o in list[..k] ==> o.score >= h.score
  {
    var i := IndexBeyond(list, Min(k, |list|), h);
    DistinctTextsCount(list[..k]);
  }

  ghost predicate AllRankings(lists: seq<seq<Hit>>) { forall i :: 0 <= i < |lists| ==> IsRanking(lists[i]) }

  lemma CutWithin(lists: seq<seq<Hit>>, k: nat, v: real)
    ensures Above(Concat(Cut(lists, k)), v) <= Above(Concat(lists), v)
  {
    forall h | h in Concat(Cut(lists, k)) ensures h in Concat(lists) {
      InConcat(Cut(lists, k), h);
      InConcat(lists, h);
      var i :| 0 <= i < |lists| && h in Cut(lists, k)[i];
      assert h in lists[i];
    }
  }

  /** When a text reaching `v` is lost to the cut, `k` texts reaching `v` are kept. */
  lemma LostText(lists: seq<seq<Hit>>, k: nat, v: real, x: string)
    requires AllRankings(lists) && x in Above(Concat(lists), v) && x !in Above(Concat(Cut(lists, k)), v)
    ensures |Above(Concat(Cut(lists, k)), v)| >= k
  {
    var h :| h in Concat(lists) && h.score >= v && h.item.text == x;
    InConcat(lists, h);
    InConcat(Cut(lists, k), h);
    var i :| 0 <= i < |lists| && h in lists[i];
    var top := Cut(lists, k)[i];
    assert h !in top;
    LostToBetter(lists[i], k, h);
    forall o | o in top ensures o in Concat(Cut(lists, k)) { InConcat(Cut(lists, k), o); }
    SubsetCardinality(Texts(top), Above(Concat(Cut(lists, k)), v));
  }

  lemma CutReach(lists: seq<seq<Hit>>, k: nat, v: real)
    requires AllRankings(lists)
    ensures Min(k, |Above(Concat(lists), v)|) == Min(k, |Above(Concat(Cut(lists, k)), v)|)
  {
    var full, cut := Above(Concat(lists), v), Above(Concat(Cut(lists, k)), v);
    CutWithin(lists, k, v);
    SubsetCardinality(cut, full);
    if x :| x in full && x !in cut { LostText(lists, k, v, x); } else { assert cut == full; }
  }

  /** Asking each collection only for its best `k` loses nothing, ties and shared texts included. */
  lemma CutLosesNothing(lists: seq<seq<Hit>>, k: int)
    requires k >= 1 && AllRankings(lists)
    ensures var a, b := Merged(Concat(lists), k), Merged(Concat(Cut(lists, k)), k);
      a.Success? && b.Success? && Scores(a.value) == Scores(b.value)
  {
    forall v ensures Min(k, |Above(Concat(lists), v)|) == Min(k, |Above(Concat(Cut(lists, k)), v)|) {
      CutReach(lists, k, v);
    }
    ReachDeterminesScores(Concat(lists), Concat(Cut(lists, k)), k);
  }
}
