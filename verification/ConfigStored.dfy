/** What the stored documents hold after a run, and what a restart reads back (config.py). */
module ConfigStored {
  import opened Lists
  import opened ConfigDoc
  import opened ConfigStore
  import opened ConfigRuns

  lemma StepDoc(u: Setup, p: Process, s: Step, published: Option<Json>, q: Path)
    requires (forall k :: k in u.order ==> k in u.reg) && (!s.Import? ==> s.key in u.reg && u.reg[s.key].path != [])
    requires s.SetAttr? ==> q == u.reg[s.key].path || Incomparable(u.reg[s.key].path, q)
    ensures Get(Acted(u, p, s, published).doc, q) ==
      if s.Import? then Get(s.config, q)
      else if s.SetAttr? && Set(p.doc, u.reg[s.key].path, s.v).Some? && q == u.reg[s.key].path then Value(s.v)
      else Get(p.doc, q)
  {
    if s.SetAttr? && Set(p.doc, u.reg[s.key].path, s.v).Some? {
      if q == u.reg[s.key].path { GetSet(p.doc, q, s.v); } else { GetSetOther(p.doc, u.reg[s.key].path, s.v, q); }
    }
  }

  lemma DocAt(u: Setup, c: Cluster, s: Step, d: Cluster, i: string, q: Path)
    requires Stepped(u, c, s, d) && i in c.locals
    requires s.SetAttr? ==> q == u.reg[s.key].path || Incomparable(u.reg[s.key].path, q)
    ensures i in d.locals && Get(d.locals[i].doc, q) ==
      if s.instance != i then Get(c.locals[i].doc, q)
      else if s.Import? then Get(s.config, q)
      else if s.SetAttr? && Set(c.locals[i].doc, u.reg[s.key].path, s.v).Some? && q == u.reg[s.key].path then Value(s.v)
      else Get(c.locals[i].doc, q)
  {
    StepLocal(u, c, s, d, i);
    if s.instance == i { StepDoc(u, c.locals[i], s, Seen(c, s), q); }
  }

  /** No registered path lies on the line of `q` without being `q`. */
  ghost predicate Aligned(u: Setup, q: Path) {
    forall k :: k in u.reg ==> q == u.reg[k].path || Incomparable(u.reg[k].path, q)
  }

  /** What the run's `n`-th step makes of a lookup in the document of `i`. */
  ghost function Rewritten(u: Setup, start: Cluster, run: seq<Step>, n: nat, i: string, q: Path, before: Lookup): Lookup
    requires n < |run|
  {
    if run[n].instance != i then before
    else if run[n].Import? then Get(run[n].config, q)
    else if Saves(u, start, run, n) && q == u.reg[run[n].key].path then Value(run[n].v)
    else before
  }

  lemma DocNext(u: Setup, states: seq<Cluster>, run: seq<Step>, n: nat, i: string, q: Path)
    requires IsRun(u, states, run) && n < |run| && i in states[0].locals && Aligned(u, q)
    ensures i in states[n].locals && i in states[n + 1].locals
    ensures Get(states[n + 1].locals[i].doc, q)
      == Rewritten(u, states[0], run, n, i, q, Get(states[n].locals[i].doc, q))
  {
    RunReady(u, states, run, n);
    RunStep(u, states, run, n);
    DocAt(u, states[n], run[n], states[n + 1], i, q);
    if run[n].SetAttr? { SavesExactly(u, states, run, n); }
  }

  /** Each instance's document is its last import, or its start, overlaid at every registered path with the
      instance's later writes that went through. */
  lemma {:induction false} DocHoldsOwnWrites(u: Setup, states: seq<Cluster>, run: seq<Step>, n: nat,
                                             i: string, key: string)
    requires IsRun(u, states, run) && n <= |run| && i in states[0].locals && key in u.reg
    ensures i in states[n].locals
    ensures var own := OwnSaved(u, states[0], run, n, i, key);
      Get(states[n].locals[i].doc, u.reg[key].path) ==
        if own.Some? then Value(own.value) else Get(Base(states[0].locals[i].doc, run, n, i), u.reg[key].path)
  {
    OnePath(u, states[0], key);
    if n > 0 {
      DocHoldsOwnWrites(u, states, run, n - 1, i, key);
      DocNext(u, states, run, n - 1, i, u.reg[key].path);
    }
  }

  lemma OnePath(u: Setup, c: Cluster, key: string)
    requires Ready(u, c) && key in u.reg
    ensures forall k :: k in u.reg ==> (u.reg[k].path == u.reg[key].path <==> k == key)
    ensures Aligned(u, u.reg[key].path)
  {
  }

  /** Paths off the line of every registered one are as last imported. */
  lemma {:induction false} DocKeepsOthers(u: Setup, states: seq<Cluster>, run: seq<Step>, n: nat, i: string, q: Path)
    requires IsRun(u, states, run) && n <= |run| && i in states[0].locals
    requires forall k :: k in u.reg ==> Incomparable(u.reg[k].path, q)
    ensures i in states[n].locals
    ensures Get(states[n].locals[i].doc, q) == Get(Base(states[0].locals[i].doc, run, n, i), q)
  {
    if n > 0 {
      DocKeepsOthers(u, states, run, n - 1, i, q);
      DocNext(u, states, run, n - 1, i, q);
    }
  }

  lemma StepStored(u: Setup, c: Cluster, s: Step, saves: bool, d: Cluster, w: string)
    requires StepIs(u, c, s, saves, d)
    ensures s.Import? || saves ==> s.instance in d.locals && d.db == d.locals[s.instance].doc
    ensures !s.Import? && !saves ==>
      d.db == c.db && (w in c.locals ==> w in d.locals && d.locals[w].doc == c.locals[w].doc)
  {
  }

  /** The database holds the document of the instance that stored last. */
  lemma {:induction false} DatabaseIsLastStored(u: Setup, states: seq<Cluster>, run: seq<Step>, n: nat)
    requires IsRun(u, states, run) && n <= |run|
    ensures var w := LastStored(u, states[0], run, n);
      if w.None? then states[n].db == states[0].db
      else w.value in states[0].locals && w.value in states[n].locals && states[n].db == states[n].locals[w.value].doc
  {
    if n > 0 {
      DatabaseIsLastStored(u, states, run, n - 1);
      var saves := StepKnown(u, states, run, n - 1);
      var w := LastStored(u, states[0], run, n - 1);
      StepStored(u, states[n - 1], run[n - 1], saves, states[n], if w.Some? then w.value else "");
    }
  }

  /** A restart reads back, for each setting, the last non-null value that the last storing instance itself wrote since
      its last import, outside oauth when that is not persistent; for a setting it did not write, what it last imported
      or started from holds there, under the same rule; and the default in all other cases. It fails exactly where that
      lookup raises. Other instances' writes are not in the database it reads. */
  lemma RestartReloads(u: Setup, states: seq<Cluster>, run: seq<Step>, n: nat, key: string,
                       persistent: bool, oauth: bool)
    requires IsRun(u, states, run) && n <= |run| && key in u.reg && LastStored(u, states[0], run, n).Some?
    ensures var w, e := LastStored(u, states[0], run, n).value, u.reg[key];
      var own := OwnSaved(u, states[0], run, n, w, key);
      w in states[0].locals &&
      var stored := if own.Some? then Value(own.value) else Get(Base(states[0].locals[w].doc, run, n, w), e.path);
      Load(states[n].db, e, persistent, oauth) ==
        if stored.TypeError? then None
        else if stored.Value? && stored.json != Null && persistent && (oauth || !UnderOauth(e.path)) then
          Some(stored.json)
        else Some(e.env)
  {
    DatabaseIsLastStored(u, states, run, n);
    DocHoldsOwnWrites(u, states, run, n, LastStored(u, states[0], run, n).value, key);
  }

  /** With a single instance that imports nothing these are the last values of all settings. */
  lemma {:induction false} SingleInstance(u: Setup, start: Cluster, run: seq<Step>, n: nat, i: string, key: string)
    requires n <= |run| && forall m :: 0 <= m < |run| ==> run[m].instance == i && !run[m].Import?
    ensures OwnSaved(u, start, run, n, i, key) == LastSaved(u, start, run, n, key)
    ensures LastSaved(u, start, run, n, key).Some? ==> LastStored(u, start, run, n) == Some(i)
  {
    if n > 0 { SingleInstance(u, start, run, n - 1, i, key); }
  }
}
