/** The hybrid collection query (retrieval/utils.py). */
module Hybrid {
  import opened Lists
  import opened Ranking
  import opened Retrieval
  import opened CollectionQuery
  import opened Rerank

  datatype Candidate = Candidate(text: string, meta: Meta)

  /** What one (collection, query) pair has to rerank. */
  datatype HybridInput = Raises | NoDocuments | Candidates(scored: seq<Scored<Candidate>>)

  datatype HybridError = AllFailed | Merging(error: MergeError)

  function AsHits(s: seq<Scored<Candidate>>): (r: seq<Hit>)
    ensures |r| == |s|
    ensures forall i :: 0 <= i < |s| ==> r[i] == Scored(s[i].score, Doc(s[i].item.text, Dict(s[i].item.meta)))
  {
    seq(|s|, i requires 0 <= i < |s| => Scored(s[i].score, Doc(s[i].item.text, Dict(s[i].item.meta))))
  }

  /** When `k < kReranker` the unpacking binds the metadata column as documents and the text column as metadata. */
  function HybridAnswer(scored: seq<Scored<Candidate>>, k: int, kReranker: int, r: real): QueryResult {
    var kept := Reranked(scored, r, kReranker);
    if k < kReranker then
      var c := Columns(AsHits(Slice(SortDesc(kept), k)));
      QueryResult(c.distances, c.metadatas, c.documents)
    else Columns(AsHits(kept))
  }

  function HybridAnswers(inputs: seq<HybridInput>, k: int, kReranker: int, r: real): seq<QueryResult> {
    if inputs == [] then []
    else
      HybridAnswers(inputs[..|inputs| - 1], k, kReranker, r)
      + (match inputs[|inputs| - 1]
         case Raises => []
         case NoDocuments => [QueryResult([], [], [])]
         case Candidates(scored) => [HybridAnswer(scored, k, kReranker, r)])
  }

  function HybridResult(inputs: seq<HybridInput>, k: int, kReranker: int, r: real): Result<seq<Hit>, HybridError> {
    var results := HybridAnswers(inputs, k, kReranker, r);
    if Raises in inputs && results == [] then Failure(AllFailed)
    else match Merged(AllHits(results), k)
      case Success(hits) => Success(hits)
      case Failure(e) => Failure(Merging(e))
  }

  method QueryCollectionHybrid(inputs: seq<HybridInput>, k: int, kReranker: int, r: real)
    returns (out: Result<seq<Hit>, HybridError>)
    ensures out == HybridResult(inputs, k, kReranker, r)
  {
    var results: seq<QueryResult>, error := [], false;
    for i := 0 to |inputs|
      invariant results == HybridAnswers(inputs[..i], k, kReranker, r)
      invariant error <==> Raises in inputs[..i]
    {
      assert inputs[..i + 1][..i] == inputs[..i];
      match inputs[i]
      case Raises => error := true;
      case NoDocuments => results := results + [QueryResult([], [], [])];
      case Candidates(scored) => results := results + [HybridAnswer(scored, k, kReranker, r)];
    }
    assert inputs[..|inputs|] == inputs;
    if error && results == [] { return Failure(AllFailed); }
    var merged := MergeAndSort(results, k);
    match merged
    case Success(hits) => out := Success(hits);
    case Failure(e) => out := Failure(Merging(e));
  }

  /** What fetching a collection gives: nothing, a collection without documents, or documents to retrieve from. */
  datatype Fetched = Unavailable | Empty | Loaded

  /** What one pair has to rerank; `retrieve` answers a query on a loaded collection, or raises. */
  function InputOf(name: string, query: string, fetch: string -> Fetched,
                   retrieve: (string, string) -> Option<seq<Scored<Candidate>>>): HybridInput
  {
    if fetch(name) == Empty then NoDocuments
    else match retrieve(name, query) case None => Raises case Some(scored) => Candidates(scored)
  }

  function InputsOf(name: string, queries: seq<string>, fetch: string -> Fetched,
                    retrieve: (string, string) -> Option<seq<Scored<Candidate>>>): seq<HybridInput>
  {
    if fetch(name) == Unavailable then []
    else seq(|queries|, i requires 0 <= i < |queries| => InputOf(name, queries[i], fetch, retrieve))
  }

  /** Collections that cannot be fetched are left out. */
  function Inputs(names: seq<string>, queries: seq<string>, fetch: string -> Fetched,
                  retrieve: (string, string) -> Option<seq<Scored<Candidate>>>): seq<HybridInput>
  {
    if names == [] then []
    else
      Inputs(names[..|names| - 1], queries, fetch, retrieve)
      + InputsOf(names[|names| - 1], queries, fetch, retrieve)
  }

  /** Fetches each collection once. */
  method FetchAll(names: seq<string>, fetch: string -> Fetched) returns (collections: map<string, Fetched>)
    ensures collections.Keys == Elements(names) && forall c :: c in collections ==> collections[c] == fetch(c)
  {
    collections := map[];
    for i := 0 to |names|
      invariant collections.Keys == Elements(names[..i]) && forall c :: c in collections ==> collections[c] == fetch(c)
    {
      assert names[..i + 1] == names[..i] + [names[i]];
      collections := collections[names[i] := fetch(names[i])];
    }
    assert names[..|names|] == names;
  }

  method QueryOne(name: string, queries: seq<string>, fetch: string -> Fetched,
                  retrieve: (string, string) -> Option<seq<Scored<Candidate>>>) returns (inputs: seq<HybridInput>)
    requires fetch(name) != Unavailable
    ensures inputs == InputsOf(name, queries, fetch, retrieve)
  {
    inputs := [];
    for j := 0 to |queries|
      invariant inputs == InputsOf(name, queries, fetch, retrieve)[..j]
    {
      inputs := inputs + [InputOf(name, queries[j], fetch, retrieve)];
    }
  }

  /** query_collection_with_hybrid_search. */
  method HybridSearch(names: seq<string>, queries: seq<string>, fetch: string -> Fetched,
                      retrieve: (string, string) -> Option<seq<Scored<Candidate>>>, k: int, kReranker: int, r: real)
    returns (out: Result<seq<Hit>, HybridError>)
    ensures out == HybridResult(Inputs(names, queries, fetch, retrieve), k, kReranker, r)
  {
    var collections := FetchAll(names, fetch);
    var inputs: seq<HybridInput> := [];
    for i := 0 to |names|
      invariant inputs == Inputs(names[..i], queries, fetch, retrieve)
    {
      assert names[..i + 1][..i] == names[..i] && names[i] in Elements(names);
      if collections[names[i]] != Unavailable {
        var own := QueryOne(names[i], queries, fetch, retrieve);
        inputs := inputs + own;
      }
    }
    assert names[..|names|] == names;
    out := QueryCollectionHybrid(inputs, k, kReranker, r);
  }

  lemma {:induction false} NoAnswers(inputs: seq<HybridInput>, k: int, kReranker: int, r: real)
    ensures HybridAnswers(inputs, k, kReranker, r) == [] <==> forall x :: x in inputs ==> x == Raises
  {
    if inputs != [] {
      var front, last := inputs[..|inputs| - 1], inputs[|inputs| - 1];
      NoAnswers(front, k, kReranker, r);
      assert forall x :: x in inputs <==> x in front || x == last by { assert inputs == front + [last]; }
      assert last != Raises ==> last in inputs;
    }
  }

  /** The search is given up exactly when there is something to retrieve and all of it raises. */
  lemma GivenUpExactly(inputs: seq<HybridInput>, k: int, kReranker: int, r: real)
    ensures HybridResult(inputs, k, kReranker, r) == Failure(AllFailed)
      <==> inputs != [] && forall x :: x in inputs ==> x == Raises
  {
    NoAnswers(inputs, k, kReranker, r);
    if inputs != [] { assert inputs[0] in inputs; }
  }

  /** A pair that is queried. */
  ghost predicate Queried(names: seq<string>, queries: seq<string>, fetch: string -> Fetched, n: string, q: string) {
    n in names && q in queries && fetch(n) != Unavailable
  }

  lemma {:induction false} InputsMeaning(names: seq<string>, queries: seq<string>, fetch: string -> Fetched,
                                         retrieve: (string, string) -> Option<seq<Scored<Candidate>>>, x: HybridInput)
    ensures x in Inputs(names, queries, fetch, retrieve)
      <==> exists n, q :: Queried(names, queries, fetch, n, q) && x == InputOf(n, q, fetch, retrieve)
  {
    if names != [] {
      var front, last := names[..|names| - 1], names[|names| - 1];
      InputsMeaning(front, queries, fetch, retrieve, x);
      assert forall n :: n in names <==> n in front || n == last by { assert names == front + [last]; }
      assert forall n, q :: (Queried(names, queries, fetch, n, q)
        <==> Queried(front, queries, fetch, n, q) || (n == last && Queried([last], queries, fetch, n, q)));
      OwnInputs(last, queries, fetch, retrieve, x);
    }
  }

  lemma OwnInputs(name: string, queries: seq<string>, fetch: string -> Fetched,
                  retrieve: (string, string) -> Option<seq<Scored<Candidate>>>, x: HybridInput)
    ensures x in InputsOf(name, queries, fetch, retrieve)
      <==> exists q :: Queried([name], queries, fetch, name, q) && x == InputOf(name, q, fetch, retrieve)
  {
    var own := InputsOf(name, queries, fetch, retrieve);
    if q :| Queried([name], queries, fetch, name, q) && x == InputOf(name, q, fetch, retrieve) {
      var j :| 0 <= j < |queries| && queries[j] == q;
      assert own[j] == x;
    }
    if x in own {
      var j :| 0 <= j < |own| && own[j] == x;
      assert Queried([name], queries, fetch, name, queries[j]);
    }
  }

  /** It is given up exactly when some collection that could be fetched is queried, and every such query raises.
      Collections that could not be fetched do not count: an outage of all of them gives an empty result. */
  lemma HybridFailsExactly(names: seq<string>, queries: seq<string>, fetch: string -> Fetched,
                           retrieve: (string, string) -> Option<seq<Scored<Candidate>>>,
                           k: int, kReranker: int, r: real)
    ensures HybridResult(Inputs(names, queries, fetch, retrieve), k, kReranker, r) == Failure(AllFailed) <==>
      && (exists n, q :: Queried(names, queries, fetch, n, q))
      && forall n, q :: Queried(names, queries, fetch, n, q) ==> fetch(n) == Loaded && retrieve(n, q).None?
  {
    var inputs := Inputs(names, queries, fetch, retrieve);
    GivenUpExactly(inputs, k, kReranker, r);
    forall n, q | Queried(names, queries, fetch, n, q) ensures InputOf(n, q, fetch, retrieve) in inputs {
      InputsMeaning(names, queries, fetch, retrieve, InputOf(n, q, fetch, retrieve));
    }
    forall x | x in inputs
      ensures exists n, q :: Queried(names, queries, fetch, n, q) && x == InputOf(n, q, fetch, retrieve)
    {
      InputsMeaning(names, queries, fetch, retrieve, x);
    }
    if inputs != [] { assert inputs[0] in inputs; }
  }

  lemma {:induction false} SwappedHasNoText(distances: seq<real>, s: seq<Scored<Candidate>>, texts: seq<Cell>)
    ensures ZipHits(distances, Columns(AsHits(s)).metadatas[0], texts) == []
  {
    var metas := Columns(AsHits(s)).metadatas[0];
    if distances != [] && s != [] && texts != [] {
      assert metas[1..] == Columns(AsHits(s[1..])).metadatas[0];
      SwappedHasNoText(distances[1..], s[1..], texts[1..]);
    }
  }

  /** What one answer contributes to the merge: nothing after the swap, the reranked entries otherwise. */
  lemma HybridAnswerHits(scored: seq<Scored<Candidate>>, k: int, kReranker: int, r: real)
    ensures HitsOf(HybridAnswer(scored, k, kReranker, r))
         == if k < kReranker then [] else AsHits(Reranked(scored, r, kReranker))
  {
    var kept := Reranked(scored, r, kReranker);
    if k < kReranker {
      var c := Columns(AsHits(Slice(SortDesc(kept), k)));
      SwappedHasNoText(c.distances[0], Slice(SortDesc(kept), k), c.documents[0]);
    } else {
      ZipOfColumns(AsHits(kept));
    }
  }

  lemma {:induction false} HybridAnswersHits(inputs: seq<HybridInput>, k: int, kReranker: int, r: real)
    ensures k < kReranker ==> AllHits(HybridAnswers(inputs, k, kReranker, r)) == []
    ensures r != 0.0 ==> forall h :: h in AllHits(HybridAnswers(inputs, k, kReranker, r)) ==> h.score >= r
  {
    if inputs != [] {
      var front, last := inputs[..|inputs| - 1], inputs[|inputs| - 1];
      HybridAnswersHits(front, k, kReranker, r);
      var done := HybridAnswers(front, k, kReranker, r);
      match last
      case Raises => assert done + [] == done;
      case NoDocuments => AllHitsAppend(done, QueryResult([], [], []));
      case Candidates(scored) =>
        HybridAnswerHits(scored, k, kReranker, r);
        AllHitsAppend(done, HybridAnswer(scored, k, kReranker, r));
        if k >= kReranker && r != 0.0 { RerankedReach(scored, r, kReranker); }
    }
  }

  lemma RerankedReach(scored: seq<Scored<Candidate>>, r: real, topN: int)
    requires r != 0.0
    ensures forall h :: h in AsHits(Reranked(scored, r, topN)) ==> h.score >= r
  {
    var kept := Reranked(scored, r, topN);
    forall i | 0 <= i < |kept| ensures kept[i].score >= r { RerankedFrom(scored, r, topN, i); }
  }

  /** Nothing the hybrid query returns scores below a nonzero threshold. */
  lemma HybridThreshold(inputs: seq<HybridInput>, k: int, kReranker: int, r: real)
    requires r != 0.0
    ensures var out := HybridResult(inputs, k, kReranker, r);
      out.Success? ==> forall h :: h in out.value ==> h.score >= r
  {
    HybridAnswersHits(inputs, k, kReranker, r);
    var hits := AllHits(HybridAnswers(inputs, k, kReranker, r));
    RankedMeaning(hits);
    forall h | h in Ranked(hits) ensures h.score >= r { BestBounds(hits, h, h); }
  }

  /** The reranked entries of some pair hold the hit. */
  ghost predicate Offered(inputs: seq<HybridInput>, kReranker: int, r: real, h: Hit) {
    exists x :: x in inputs && OfferedBy(x, kReranker, r, h)
  }

  ghost predicate OfferedBy(x: HybridInput, kReranker: int, r: real, h: Hit) {
    x.Candidates? && h in AsHits(Reranked(x.scored, r, kReranker))
  }

  lemma OfferedLast(front: seq<HybridInput>, last: HybridInput, kReranker: int, r: real, h: Hit)
    ensures Offered(front + [last], kReranker, r, h)
      <==> Offered(front, kReranker, r, h) || OfferedBy(last, kReranker, r, h)
  {
  }

  /** Every pair's reranked entries reach the merge, and nothing else does. */
  lemma {:induction false} HitsAreOffered(inputs: seq<HybridInput>, k: int, kReranker: int, r: real, h: Hit)
    requires k >= kReranker
    ensures h in AllHits(HybridAnswers(inputs, k, kReranker, r)) <==> Offered(inputs, kReranker, r, h)
  {
    if inputs != [] {
      var front, last := inputs[..|inputs| - 1], inputs[|inputs| - 1];
      assert inputs == front + [last];
      HitsAreOffered(front, k, kReranker, r, h);
      OfferedLast(front, last, kReranker, r, h);
      var done := HybridAnswers(front, k, kReranker, r);
      match last
      case Raises => assert done + [] == done;
      case NoDocuments => AllHitsAppend(done, QueryResult([], [], []));
      case Candidates(scored) =>
        HybridAnswerHits(scored, k, kReranker, r);
        AllHitsAppend(done, HybridAnswer(scored, k, kReranker, r));
    }
  }

  /** The pairs answer in their order. */
  lemma {:induction false} AnswersInTurn(a: seq<HybridInput>, b: seq<HybridInput>, k: int, kReranker: int, r: real)
    ensures HybridAnswers(a + b, k, kReranker, r)
      == HybridAnswers(a, k, kReranker, r) + HybridAnswers(b, k, kReranker, r)
    decreases |b|
  {
    if b == [] {
      assert a + b == a;
    } else {
      var n := |b| - 1;
      assert (a + b)[..|a| + n] == a + b[..n];
      AnswersInTurn(a, b[..n], k, kReranker, r);
    }
  }

  /** Each entry of the result is the best offered hit of its text, the texts are those of the best offered hits, and as
      many as the cut keeps. */
  ghost predicate BestOffered(out: seq<Hit>, offered: Hit -> bool, texts: set<string>, k: int) {
    && |out| == Kept(k, |texts|) && Descending(out) && DistinctTexts(out)
    && (forall o :: o in out ==> offered(o))
    && (forall o, h :: o in out && offered(h) && h.item.text == o.item.text ==> h.score <= o.score)
    && (forall o, h :: o in out && offered(h) && h.item.text !in Texts(out) ==> h.score <= o.score)
  }

  lemma MergedIsBest(hits: seq<Hit>, k: int)
    requires Merged(hits, k).Success?
    ensures BestOffered(Merged(hits, k).value, h => h in hits, Texts(hits), k)
  {
    MergeMeaning(hits, k);
    var out := Merged(hits, k).value;
    forall o | o in out ensures o in hits { BestBounds(hits, o, o); }
    forall o, h | o in out && h in hits && h.item.text == o.item.text ensures h.score <= o.score {
      BestBounds(hits, o, h);
    }
  }

  lemma SameOffers(out: seq<Hit>, a: Hit -> bool, b: Hit -> bool, texts: set<string>, k: int)
    requires BestOffered(out, a, texts, k) && forall h :: a(h) <==> b(h)
    ensures BestOffered(out, b, texts, k)
  {
  }

  /** With k at least the rerank limit the query returns the best of all that the reranked pairs offer. */
  lemma HybridIsBest(inputs: seq<HybridInput>, k: int, kReranker: int, r: real, texts: set<string>)
    requires k >= kReranker && HybridResult(inputs, k, kReranker, r).Success?
    requires forall x :: x in texts <==> exists h: Hit :: Offered(inputs, kReranker, r, h) && h.item.text == x
    ensures BestOffered(HybridResult(inputs, k, kReranker, r).value, h => Offered(inputs, kReranker, r, h), texts, k)
  {
    var hits := AllHits(HybridAnswers(inputs, k, kReranker, r));
    forall h ensures h in hits <==> Offered(inputs, kReranker, r, h) { HitsAreOffered(inputs, k, kReranker, r, h); }
    assert texts == Texts(hits);
    MergedIsBest(hits, k);
    SameOffers(Merged(hits, k).value, h => h in hits, h => Offered(inputs, kReranker, r, h), texts, k);
  }

  /** A queried pair on a loaded collection offers the hit. */
  ghost predicate OffersFor(names: seq<string>, queries: seq<string>, fetch: string -> Fetched,
                            retrieve: (string, string) -> Option<seq<Scored<Candidate>>>, kReranker: int, r: real,
                            n: string, q: string, h: Hit)
  {
    && n in names && q in queries && fetch(n) == Loaded && retrieve(n, q).Some?
    && h in AsHits(Reranked(retrieve(n, q).value, r, kReranker))
  }

  lemma OfferedMeaning(names: seq<string>, queries: seq<string>, fetch: string -> Fetched,
                       retrieve: (string, string) -> Option<seq<Scored<Candidate>>>, kReranker: int, r: real, h: Hit)
    ensures Offered(Inputs(names, queries, fetch, retrieve), kReranker, r, h)
      <==> exists n, q :: OffersFor(names, queries, fetch, retrieve, kReranker, r, n, q, h)
  {
    var inputs := Inputs(names, queries, fetch, retrieve);
    if x :| x in inputs && OfferedBy(x, kReranker, r, h) {
      InputsMeaning(names, queries, fetch, retrieve, x);
      var n, q :| Queried(names, queries, fetch, n, q) && x == InputOf(n, q, fetch, retrieve);
      assert OffersFor(names, queries, fetch, retrieve, kReranker, r, n, q, h);
    }
    if n, q :| OffersFor(names, queries, fetch, retrieve, kReranker, r, n, q, h) {
      InputsMeaning(names, queries, fetch, retrieve, InputOf(n, q, fetch, retrieve));
      assert Queried(names, queries, fetch, n, q);
      assert OfferedBy(InputOf(n, q, fetch, retrieve), kReranker, r, h);
    }
  }

  /** The same for the whole search: the best of what any query gets, reranked, from any collection it could fetch. */
  lemma HybridSearchIsBest(names: seq<string>, queries: seq<string>, fetch: string -> Fetched,
                           retrieve: (string, string) -> Option<seq<Scored<Candidate>>>,
                           k: int, kReranker: int, r: real, offered: Hit -> bool, texts: set<string>)
    requires k >= kReranker && HybridResult(Inputs(names, queries, fetch, retrieve), k, kReranker, r).Success?
    requires forall h :: offered(h) <==>
      exists n, q :: OffersFor(names, queries, fetch, retrieve, kReranker, r, n, q, h)
    requires forall x :: x in texts <==> exists h: Hit :: offered(h) && h.item.text == x
    ensures BestOffered(HybridResult(Inputs(names, queries, fetch, retrieve), k, kReranker, r).value, offered, texts, k)
  {
    var inputs := Inputs(names, queries, fetch, retrieve);
    forall h ensures Offered(inputs, kReranker, r, h) <==> offered(h) {
      OfferedMeaning(names, queries, fetch, retrieve, kReranker, r, h);
    }
    HybridIsBest(inputs, k, kReranker, r, texts);
    SameOffers(HybridResult(inputs, k, kReranker, r).value, h => Offered(inputs, kReranker, r, h), offered, texts, k);
  }

  ghost predicate Passes(x: HybridInput, r: real) { x.Candidates? && Eligible(x.scored, r) != [] }

  ghost predicate HasCandidate(inputs: seq<HybridInput>, r: real) {
    exists x :: x in inputs && Passes(x, r)
  }

  lemma HasCandidateLast(front: seq<HybridInput>, last: HybridInput, r: real)
    ensures HasCandidate(front + [last], r) <==> HasCandidate(front, r) || Passes(last, r)
  {
  }

  lemma {:induction false} HybridHasHits(inputs: seq<HybridInput>, k: int, kReranker: int, r: real)
    requires k >= kReranker >= 1
    ensures AllHits(HybridAnswers(inputs, k, kReranker, r)) != [] <==> HasCandidate(inputs, r)
  {
    if inputs != [] {
      var front, last := inputs[..|inputs| - 1], inputs[|inputs| - 1];
      assert inputs == front + [last];
      HybridHasHits(front, k, kReranker, r);
      LastAnswerHits(front, last, k, kReranker, r);
      HasCandidateLast(front, last, r);
    }
  }

  lemma LastAnswerHits(front: seq<HybridInput>, last: HybridInput, k: int, kReranker: int, r: real)
    requires k >= kReranker >= 1
    ensures AllHits(HybridAnswers(front + [last], k, kReranker, r)) != []
       <==> AllHits(HybridAnswers(front, k, kReranker, r)) != [] || Passes(last, r)
  {
    assert (front + [last])[..|front|] == front;
    var done := HybridAnswers(front, k, kReranker, r);
    match last
    case Raises => assert done + [] == done;
    case NoDocuments => AllHitsAppend(done, QueryResult([], [], []));
    case Candidates(scored) =>
      HybridAnswerHits(scored, k, kReranker, r);
      AllHitsAppend(done, HybridAnswer(scored, k, kReranker, r));
      SortKeeps(Eligible(scored, r));
  }

  /** The query finds something exactly when the rerank limit does not exceed `k` and some document passes the
      threshold: with `k < kReranker` the swapped columns make the merge drop every row. */
  lemma HybridFindsExactly(inputs: seq<HybridInput>, k: int, kReranker: int, r: real)
    requires k >= 1 && kReranker >= 1
    ensures var out := HybridResult(inputs, k, kReranker, r);
      (out.Success? && out.value != []) <==> (k >= kReranker && HasCandidate(inputs, r))
  {
    var answers := HybridAnswers(inputs, k, kReranker, r);
    MergeMeaning(AllHits(answers), k);
    if k < kReranker {
      HybridAnswersHits(inputs, k, kReranker, r);
    } else {
      HybridHasHits(inputs, k, kReranker, r);
      if AllHits(answers) != [] { assert AllHits(answers)[0].item.text in Texts(AllHits(answers)); }
    }
  }
}
