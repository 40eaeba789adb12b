/** What a read returns on any instance of a run (config.py). */
module ConfigReads {
  import opened Lists
  import opened ConfigDoc
  import opened ConfigStore
  import opened ConfigRuns

  lemma StepPublished(u: Setup, c: Cluster, s: Step, saves: bool, d: Cluster, key: string)
    requires StepIs(u, c, s, saves, d) && c.redis.Some?
    ensures Published(d, key) == if saves && s.key == key then Some(s.v) else Published(c, key)
  {
  }

  /** Redis holds the last write that went through, or what it held at the start. */
  lemma {:induction false} PublishedIsLastSaved(u: Setup, states: seq<Cluster>, run: seq<Step>, n: nat, key: string)
    requires IsRun(u, states, run) && n <= |run| && states[0].redis.Some?
    ensures Published(states[n], key) == OrElse(LastSaved(u, states[0], run, n, key), Published(states[0], key))
  {
    if n > 0 {
      PublishedIsLastSaved(u, states, run, n - 1, key);
      var saves := StepKnown(u, states, run, n - 1);
      StepPublished(u, states[n - 1], run[n - 1], saves, states[n], key);
    }
  }

  lemma StepOwn(u: Setup, p: Process, s: Step, published: Option<Json>, key: string)
    requires (forall k :: k in u.order ==> k in u.reg) && Knows(u, p) && key in u.reg
    requires !s.Import? ==> s.key in u.reg && u.reg[s.key].path != [] && (s.key == key ==> published.None?)
    ensures key in Acted(u, p, s, published).values
    ensures Acted(u, p, s, published).values[key] == OwnStep(u, p.values[key], s, s.instance, key)
  {
    if s.Import? { UpdatedMeaning(u.reg, s.config, u.order, p.values, key); }
  }

  /** A read leaves in its instance's memory what it returned, and everything else as it was. */
  lemma ReadRemembered(u: Setup, c: Cluster, i: string, key: string)
    requires Enabled(u, c, GetAttr(i, key))
    ensures Next(u, c, GetAttr(i, key)) == c.(locals := c.locals[i :=
      Process(c.locals[i].doc, c.locals[i].values[key := Read(c, i, key)])])
  {
    assert c.locals[i].values == c.locals[i].values[key := c.locals[i].values[key]];
  }

  lemma StepUnpublished(u: Setup, c: Cluster, s: Step, d: Cluster, key: string)
    requires Stepped(u, c, s, d) && Published(d, key).None?
    ensures Published(c, key).None?
  {
  }

  lemma OwnAt(u: Setup, c: Cluster, s: Step, d: Cluster, i: string, key: string)
    requires Stepped(u, c, s, d) && i in c.locals && Knows(u, c.locals[i]) && key in u.reg && Published(c, key).None?
    ensures key in c.locals[i].values && i in d.locals && key in d.locals[i].values
    ensures d.locals[i].values[key] == OwnStep(u, c.locals[i].values[key], s, i, key)
  {
    StepLocal(u, c, s, d, i);
    if s.instance == i { StepOwn(u, c.locals[i], s, Seen(c, s), key); }
  }

  /** While nothing is published for a setting, only the instance itself changes its value. */
  lemma OwnNext(u: Setup, states: seq<Cluster>, run: seq<Step>, n: nat, i: string, key: string)
    requires IsRun(u, states, run) && n < |run| && i in states[0].locals && key in u.reg
    requires Published(states[n + 1], key).None?
    ensures Published(states[n], key).None?
    ensures i in states[n].locals && key in states[n].locals[i].values
    ensures i in states[n + 1].locals && key in states[n + 1].locals[i].values
    ensures states[n + 1].locals[i].values[key] == OwnStep(u, states[n].locals[i].values[key], run[n], i, key)
  {
    RunReady(u, states, run, n);
    RunStep(u, states, run, n);
    StepUnpublished(u, states[n], run[n], states[n + 1], key);
    OwnAt(u, states[n], run[n], states[n + 1], i, key);
  }

  lemma {:induction false} UnpublishedIsOwn(u: Setup, states: seq<Cluster>, run: seq<Step>, n: nat,
                                            i: string, key: string)
    requires IsRun(u, states, run) && n <= |run| && i in states[0].locals && key in u.reg
    requires Published(states[n], key).None?
    ensures i in states[n].locals && key in states[0].locals[i].values && key in states[n].locals[i].values
    ensures states[n].locals[i].values[key] == OwnValue(u, states[0].locals[i].values[key], run, n, i, key)
  {
    if n > 0 {
      OwnNext(u, states, run, n - 1, i, key);
      UnpublishedIsOwn(u, states, run, n - 1, i, key);
    } else {
      RunReady(u, states, run, 0);
    }
  }

  /** With Redis a read on any instance returns the most recent write that went through on any instance, or what Redis
      held at the start. Only before that, and always without Redis, it returns what the instance itself last gave the
      setting, by a write that may have raised or by an import, or its starting value. */
  lemma ReadsLatest(u: Setup, states: seq<Cluster>, run: seq<Step>, n: nat, i: string, key: string)
    requires IsRun(u, states, run) && n <= |run| && i in states[0].locals && key in u.reg
    ensures i in states[n].locals && key in states[0].locals[i].values && key in states[n].locals[i].values
    ensures var latest := if states[0].redis.None? then None
                          else OrElse(LastSaved(u, states[0], run, n, key), Published(states[0], key));
      Read(states[n], i, key) ==
        if latest.Some? then latest.value else OwnValue(u, states[0].locals[i].values[key], run, n, i, key)
  {
    RunReady(u, states, run, n);
    if states[0].redis.Some? { PublishedIsLastSaved(u, states, run, n, key); }
    if Published(states[n], key).None? { UnpublishedIsOwn(u, states, run, n, i, key); }
  }
}
