/** Querying every collection for every query and merging the answers (retrieval/utils.py). */
module CollectionQuery {
  import opened Lists
  import opened Ranking
  import opened Retrieval

  datatype Outcome = Found(data: QueryResult) | Missing | Failed

  /** The result dict that lists `s` row by row. */
  function Columns(s: seq<Hit>): QueryResult {
    QueryResult([Scores(s)],
                [seq(|s|, i requires 0 <= i < |s| => Text(s[i].item.text))],
                [seq(|s|, i requires 0 <= i < |s| => s[i].item.meta)])
  }

  lemma {:induction false} ZipOfColumns(s: seq<Hit>)
    ensures HitsOf(Columns(s)) == s
  {
    if s != [] {
      var c, t := Columns(s), Columns(s[1..]);
      ZipOfColumns(s[1..]);
      assert c.distances[0][1..] == t.distances[0];
      assert c.documents[0][1..] == t.documents[0];
      assert c.metadatas[0][1..] == t.metadatas[0];
    }
  }

  /** The (collection, query) pairs in the order they are submitted. */
  function Tasks<E>(names: seq<string>, embeddings: seq<E>): seq<(string, E)> {
    if embeddings == [] then []
    else Tasks(names, embeddings[..|embeddings| - 1])
         + seq(|names|, i requires 0 <= i < |names| => (names[i], embeddings[|embeddings| - 1]))
  }

  /** Every collection for every query, the collections in turn for each query. */
  lemma {:induction false} TasksAt<E>(names: seq<string>, embeddings: seq<E>, i: nat, j: nat)
    requires i < |names| && j < |embeddings|
    ensures |Tasks(names, embeddings)| == |names| * |embeddings| && j * |names| + i < |names| * |embeddings|
    ensures Tasks(names, embeddings)[j * |names| + i] == (names[i], embeddings[j])
    decreases |embeddings|
  {
    var n, m, at := |embeddings| - 1, |names|, j * |names| + i;
    TasksCount(names, embeddings);
    TasksCount(names, embeddings[..n]);
    RowBounds(m, |embeddings|, i, j);
    var front, own := Tasks(names, embeddings[..n]), seq(m, i requires 0 <= i < m => (names[i], embeddings[n]));
    assert Tasks(names, embeddings) == front + own;
    if j < n {
      TasksAt(names, embeddings[..n], i, j);
      assert (front + own)[at] == front[at];
    } else {
      assert at == |front| + i;
      assert (front + own)[at] == own[i];
    }
  }

  lemma {:induction false} TasksCount<E>(names: seq<string>, embeddings: seq<E>)
    ensures |Tasks(names, embeddings)| == |names| * |embeddings|
  {
    if embeddings != [] {
      var front := embeddings[..|embeddings| - 1];
      TasksCount(names, front);
      OneMore(|names|, |front|, |embeddings|);
    }
  }

  lemma OneMore(m: nat, n: nat, n': nat)
    requires n' == n + 1
    ensures m * n' == m * n + m
  {
  }

  lemma RowBounds(m: nat, n: nat, i: nat, j: nat)
    requires i < m && j < n
    ensures 0 <= j * m + i < m * n && (j < n - 1 ==> j * m + i < m * (n - 1))
    ensures j == n - 1 ==> j * m + i == m * (n - 1) + i
    ensures m * n == m * (n - 1) + m
  {
    assert (j + 1) * m <= n * m;
    assert j < n - 1 ==> (j + 1) * m <= (n - 1) * m;
  }

  lemma {:induction false} TasksMeaning<E>(names: seq<string>, embeddings: seq<E>, t: (string, E))
    ensures t in Tasks(names, embeddings) <==> t.0 in names && t.1 in embeddings
  {
    if embeddings != [] {
      var front, last := embeddings[..|embeddings| - 1], embeddings[|embeddings| - 1];
      TasksMeaning(names, front, t);
      assert t.1 in embeddings <==> t.1 in front || t.1 == last by { assert embeddings == front + [last]; }
      var own := seq(|names|, i requires 0 <= i < |names| => (names[i], last));
      if t.0 in names && t.1 == last {
        var i :| 0 <= i < |names| && names[i] == t.0;
        assert own[i] == t;
      }
    }
  }

  /** One task: an unnamed collection is skipped, a failing search gives nothing. */
  function Answer<E>(task: (string, E), search: (string, E, int) -> Outcome, k: int): seq<QueryResult> {
    if task.0 == "" then []
    else match search(task.0, task.1, k) case Found(data) => [data] case _ => []
  }

  function Answers<E>(tasks: seq<(string, E)>, search: (string, E, int) -> Outcome, k: int): seq<QueryResult> {
    if tasks == [] then []
    else Answers(tasks[..|tasks| - 1], search, k) + Answer(tasks[|tasks| - 1], search, k)
  }

  /** The answers are those that were found for the named collections, in the order of the tasks. */
  lemma {:induction false} AnswersMeaning<E>(tasks: seq<(string, E)>, search: (string, E, int) -> Outcome, k: int,
                                             d: QueryResult)
    ensures d in Answers(tasks, search, k)
      <==> exists i :: 0 <= i < |tasks| && tasks[i].0 != "" && search(tasks[i].0, tasks[i].1, k) == Found(d)
  {
    if tasks != [] {
      var n := |tasks| - 1;
      AnswersMeaning(tasks[..n], search, k, d);
      assert forall i :: 0 <= i < n ==> tasks[..n][i] == tasks[i];
    }
  }

  lemma AnswersAppend<E>(tasks: seq<(string, E)>, t: (string, E), search: (string, E, int) -> Outcome, k: int)
    ensures Answers(tasks + [t], search, k) == Answers(tasks, search, k) + Answer(t, search, k)
  {
  }

  lemma {:induction false} AnswersInOrder<E>(a: seq<(string, E)>, b: seq<(string, E)>,
                                             search: (string, E, int) -> Outcome, k: int)
    ensures Answers(a + b, search, k) == Answers(a, search, k) + Answers(b, search, k)
    decreases |b|
  {
    if b == [] {
      assert a + b == a;
    } else {
      var front, t := b[..|b| - 1], b[|b| - 1];
      assert a + b == (a + front) + [t] && b == front + [t];
      AnswersInOrder(a, front, search, k);
      AnswersAppend(a + front, t, search, k);
      AnswersAppend(front, t, search, k);
    }
  }

  method QueryCollection<E>(names: seq<string>, embeddings: seq<E>, search: (string, E, int) -> Outcome, k: int)
    returns (r: Result<seq<Hit>, MergeError>)
    ensures r == Merged(AllHits(Answers(Tasks(names, embeddings), search, k)), k)
  {
    var tasks: seq<(string, E)> := [];
    for i := 0 to |embeddings|
      invariant tasks == Tasks(names, embeddings[..i])
    {
      ghost var before := tasks;
      for j := 0 to |names|
        invariant tasks == before + seq(j, n requires 0 <= n < j => (names[n], embeddings[i]))
      {
        tasks := tasks + [(names[j], embeddings[i])];
      }
      assert embeddings[..i + 1][..i] == embeddings[..i];
    }
    assert embeddings[..|embeddings|] == embeddings;
    var results: seq<QueryResult> := [];
    for i := 0 to |tasks|
      invariant results == Answers(tasks[..i], search, k)
    {
      assert tasks[..i + 1][..i] == tasks[..i];
      results := results + Answer(tasks[i], search, k);
    }
    assert tasks[..|tasks|] == tasks;
    r := MergeAndSort(results, k);
  }

  // ---------- against whole rankings ----------

  /** A store that answers with the first `k` entries of a ranking, or fails. */
  ghost predicate Serves<E(!new)>(search: (string, E, int) -> Outcome, rank: (string, E) -> Option<seq<Hit>>, k: int)
    requires k >= 0
  {
    forall c, e :: match rank(c, e)
      case None => search(c, e, k) == Failed
      case Some(s) => IsRanking(s) && search(c, e, k) == Found(Columns(s[..Min(k, |s|)]))
  }

  function RankingOf<E>(task: (string, E), rank: (string, E) -> Option<seq<Hit>>): seq<seq<Hit>> {
    if task.0 == "" then [] else match rank(task.0, task.1) case Some(s) => [s] case None => []
  }

  function Rankings<E>(tasks: seq<(string, E)>, rank: (string, E) -> Option<seq<Hit>>): seq<seq<Hit>> {
    if tasks == [] then []
    else Rankings(tasks[..|tasks| - 1], rank) + RankingOf(tasks[|tasks| - 1], rank)
  }

  lemma ConcatCutAppend(lists: seq<seq<Hit>>, s: seq<Hit>, k: nat)
    ensures Concat(Cut(lists + [s], k)) == Concat(Cut(lists, k)) + s[..Min(k, |s|)]
  {
    assert Cut(lists + [s], k)[..|lists|] == Cut(lists, k);
  }

  lemma OneAnswer<E(!new)>(done: seq<QueryResult>, lists: seq<seq<Hit>>, task: (string, E),
      search: (string, E, int) -> Outcome, rank: (string, E) -> Option<seq<Hit>>, k: nat)
    requires Serves(search, rank, k) && AllHits(done) == Concat(Cut(lists, k)) && AllRankings(lists)
    ensures AllHits(done + Answer(task, search, k)) == Concat(Cut(lists + RankingOf(task, rank), k))
    ensures AllRankings(lists + RankingOf(task, rank))
  {
    if task.0 != "" && rank(task.0, task.1).Some? {
      var s := rank(task.0, task.1).value;
      var cut := s[..Min(k, |s|)];
      assert search(task.0, task.1, k) == Found(Columns(cut));
      AllHitsAppend(done, Columns(cut));
      ZipOfColumns(cut);
      ConcatCutAppend(lists, s, k);
    } else {
      assert task.0 != "" ==> search(task.0, task.1, k) == Failed;
      assert done + [] == done && lists + [] == lists;
    }
  }

  lemma {:induction false} AnswersAreCuts<E(!new)>(tasks: seq<(string, E)>,
      search: (string, E, int) -> Outcome, rank: (string, E) -> Option<seq<Hit>>, k: nat)
    requires Serves(search, rank, k)
    ensures AllHits(Answers(tasks, search, k)) == Concat(Cut(Rankings(tasks, rank), k))
    ensures AllRankings(Rankings(tasks, rank))
  {
    if tasks != [] {
      var front, last := tasks[..|tasks| - 1], tasks[|tasks| - 1];
      AnswersAreCuts(front, search, rank, k);
      OneAnswer(Answers(front, search, k), Rankings(front, rank), last, search, rank, k);
    }
  }

  /** Some named collection ranks the hit for some query. */
  ghost predicate RanksFor<E(!new)>(names: seq<string>, embeddings: seq<E>, rank: (string, E) -> Option<seq<Hit>>,
                                    n: string, e: E, h: Hit)
  {
    n in names && e in embeddings && n != "" && rank(n, e).Some? && h in rank(n, e).value
  }

  lemma {:induction false} InRankings<E(!new)>(tasks: seq<(string, E)>, rank: (string, E) -> Option<seq<Hit>>,
                                               s: seq<Hit>)
    ensures s in Rankings(tasks, rank) <==> exists t :: t in tasks && t.0 != "" && rank(t.0, t.1) == Some(s)
  {
    if tasks != [] {
      var front, last := tasks[..|tasks| - 1], tasks[|tasks| - 1];
      InRankings(front, rank, s);
      assert forall t :: t in tasks <==> t in front || t == last by { assert tasks == front + [last]; }
    }
  }

  lemma RankedSomewhere<E(!new)>(names: seq<string>, embeddings: seq<E>, rank: (string, E) -> Option<seq<Hit>>, h: Hit)
    ensures h in Concat(Rankings(Tasks(names, embeddings), rank))
      <==> exists n, e :: RanksFor(names, embeddings, rank, n, e, h)
  {
    var tasks := Tasks(names, embeddings);
    var lists := Rankings(tasks, rank);
    InConcat(lists, h);
    if s :| s in lists && h in s {
      InRankings(tasks, rank, s);
      var t :| t in tasks && t.0 != "" && rank(t.0, t.1) == Some(s);
      TasksMeaning(names, embeddings, t);
      assert RanksFor(names, embeddings, rank, t.0, t.1, h);
    }
    if n, e :| RanksFor(names, embeddings, rank, n, e, h) {
      TasksMeaning(names, embeddings, (n, e));
      InRankings(tasks, rank, rank(n, e).value);
    }
  }

  /** Querying with limit `k` scores as if all hits that any named collection ranks for any query were merged. */
  lemma QueryIsGlobalBest<E(!new)>(names: seq<string>, embeddings: seq<E>,
      search: (string, E, int) -> Outcome, rank: (string, E) -> Option<seq<Hit>>, k: int, all: seq<Hit>)
    requires k >= 1 && Serves(search, rank, k)
    requires forall h :: h in all <==> exists n, e :: RanksFor(names, embeddings, rank, n, e, h)
    ensures var limited, global := Merged(AllHits(Answers(Tasks(names, embeddings), search, k)), k), Merged(all, k);
      limited.Success? && global.Success? && Scores(limited.value) == Scores(global.value)
  {
    var tasks := Tasks(names, embeddings);
    AnswersAreCuts(tasks, search, rank, k);
    CutLosesNothing(Rankings(tasks, rank), k);
    forall h ensures h in Concat(Rankings(tasks, rank)) <==> h in all { RankedSomewhere(names, embeddings, rank, h); }
    SameHitsSameScores(Concat(Rankings(tasks, rank)), all, k);
  }
}
