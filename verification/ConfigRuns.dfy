/** Runs of attribute writes, reads and imports on any number of instances over one database, with Redis or without
    (config.py). */
module ConfigRuns {
  import opened Lists
  import opened ConfigDoc
  import opened ConfigStore

  /** The registered settings and the order in which an import updates them. */
  datatype Setup = Setup(reg: Registry, order: seq<string>)

  datatype Cluster = Cluster(db: Json, redis: Option<map<string, Json>>, locals: map<string, Process>)

  datatype Step =
    | SetAttr(instance: string, key: string, v: Json)
    | GetAttr(instance: string, key: string)
    | Import(instance: string, config: Json)

  function Fetch(m: map<string, Json>, k: string): Option<Json> { if k in m then Some(m[k]) else None }

  function OrElse<T>(a: Option<T>, b: Option<T>): Option<T> { if a.Some? then a else b }

  /** What Redis holds for a setting. */
  function Published(c: Cluster, key: string): Option<Json> {
    if c.redis.Some? then Fetch(c.redis.value, key) else None
  }

  /** What a read returns. */
  function Read(c: Cluster, i: string, key: string): Json
    requires i in c.locals && key in c.locals[i].values
  {
    if Published(c, key).Some? then Published(c, key).value else c.locals[i].values[key]
  }

  /** The step names an instance and a registered setting. */
  ghost predicate Enabled(u: Setup, c: Cluster, s: Step) {
    && s.instance in c.locals && (forall k :: k in u.order ==> k in u.reg)
    && (!s.Import? ==> s.key in u.reg && u.reg[s.key].path != [] && s.key in c.locals[s.instance].values)
  }

  /** What the step does to the acting process, with `published` what Redis holds for the setting. */
  function Acted(u: Setup, p: Process, s: Step, published: Option<Json>): Process
    requires (forall k :: k in u.order ==> k in u.reg)
    requires !s.Import? ==> s.key in u.reg && u.reg[s.key].path != []
  {
    match s
    case SetAttr(_, key, v) => Assigned(u.reg, p, key, v)
    case GetAttr(_, key) => if published.Some? then p.(values := p.values[key := published.value]) else p
    case Import(_, config) => Process(config, Updated(u.reg, config, u.order, p.values).0)
  }

  function Seen(c: Cluster, s: Step): Option<Json> { if s.Import? then None else Published(c, s.key) }

  function Next(u: Setup, c: Cluster, s: Step): Cluster requires Enabled(u, c, s) {
    var p := c.locals[s.instance];
    var q := Acted(u, p, s, Seen(c, s));
    var locals := c.locals[s.instance := q];
    match s
    case SetAttr(_, key, v) =>
      if Set(p.doc, u.reg[key].path, v).Some? then
        Cluster(q.doc, if c.redis.Some? then Some(c.redis.value[key := v]) else None, locals)
      else c.(locals := locals)
    case GetAttr(_, _) => c.(locals := locals)
    case Import(_, config) => Cluster(config, c.redis, locals)
  }

  /** Every instance knows exactly the registered settings. */
  ghost predicate Ready(u: Setup, c: Cluster) {
    && Registered(u.reg) && (forall k :: k in u.order ==> k in u.reg)
    && forall i :: i in c.locals ==> Knows(u, c.locals[i])
  }

  ghost predicate Knows(u: Setup, p: Process) { p.values.Keys == u.reg.Keys }

  ghost predicate Stepped(u: Setup, c: Cluster, s: Step, d: Cluster) { Enabled(u, c, s) && d == Next(u, c, s) }

  lemma StepLocal(u: Setup, c: Cluster, s: Step, d: Cluster, i: string)
    requires Stepped(u, c, s, d) && i in c.locals
    ensures i in d.locals
    ensures d.locals[i] == if s.instance == i then Acted(u, c.locals[i], s, Seen(c, s)) else c.locals[i]
  {
  }

  ghost predicate StepAt(u: Setup, states: seq<Cluster>, run: seq<Step>, n: nat)
    requires n < |run| && |states| == |run| + 1
  {
    Stepped(u, states[n], run[n], states[n + 1])
  }

  ghost predicate IsRun(u: Setup, states: seq<Cluster>, run: seq<Step>) {
    && |states| == |run| + 1 && Ready(u, states[0])
    && forall n :: 0 <= n < |run| ==> StepAt(u, states, run, n)
  }

  lemma RunStep(u: Setup, states: seq<Cluster>, run: seq<Step>, n: nat)
    requires IsRun(u, states, run) && n < |run|
    ensures Stepped(u, states[n], run[n], states[n + 1])
  {
    assert StepAt(u, states, run, n);
  }

  lemma ActedKnows(u: Setup, p: Process, s: Step, published: Option<Json>)
    requires Knows(u, p) && forall k :: k in u.order ==> k in u.reg
    requires !s.Import? ==> s.key in u.reg && u.reg[s.key].path != []
    ensures Knows(u, Acted(u, p, s, published))
  {
    if s.Import? { UpdatedKeys(u.reg, s.config, u.order, p.values); }
  }

  lemma StepKeys(u: Setup, c: Cluster, s: Step, d: Cluster)
    requires Stepped(u, c, s, d)
    ensures d.locals.Keys == c.locals.Keys && d.redis.Some? == c.redis.Some?
  {
  }

  lemma StepKnows(u: Setup, c: Cluster, s: Step, d: Cluster, i: string)
    requires Stepped(u, c, s, d) && i in c.locals && Knows(u, c.locals[i])
    ensures i in d.locals && Knows(u, d.locals[i])
  {
    StepLocal(u, c, s, d, i);
    if s.instance == i { ActedKnows(u, c.locals[i], s, Seen(c, s)); }
  }

  lemma StepReady(u: Setup, c: Cluster, s: Step, d: Cluster)
    requires Ready(u, c) && Stepped(u, c, s, d)
    ensures Ready(u, d)
  {
    StepKeys(u, c, s, d);
    forall i | i in d.locals ensures Knows(u, d.locals[i]) { StepKnows(u, c, s, d, i); }
  }

  lemma {:induction false} RunReady(u: Setup, states: seq<Cluster>, run: seq<Step>, n: nat)
    requires IsRun(u, states, run) && n <= |run|
    ensures Ready(u, states[n]) && states[n].locals.Keys == states[0].locals.Keys
    ensures states[n].redis.Some? == states[0].redis.Some?
  {
    if n > 0 {
      RunReady(u, states, run, n - 1);
      RunStep(u, states, run, n - 1);
      StepReady(u, states[n - 1], run[n - 1], states[n]);
      StepKeys(u, states[n - 1], run[n - 1], states[n]);
    }
  }

  // ---------- what a run did, told from its steps and its start ----------

  /** The document an instance last imported, or else started from. */
  function Base(start: Json, run: seq<Step>, n: nat, i: string): Json requires n <= |run| {
    if n == 0 then start
    else if run[n - 1].Import? && run[n - 1].instance == i then run[n - 1].config
    else Base(start, run, n - 1, i)
  }

  /** A write goes through when nothing but dicts lies on its path in that document. */
  ghost predicate Saves(u: Setup, start: Cluster, run: seq<Step>, n: nat) requires n < |run| {
    var s := run[n];
    && s.SetAttr? && s.instance in start.locals && s.key in u.reg
    && Clear(Base(start.locals[s.instance].doc, run, n, s.instance), u.reg[s.key].path)
  }

  /** The last write to `key` that went through, by any instance. */
  ghost function LastSaved(u: Setup, start: Cluster, run: seq<Step>, n: nat, key: string): Option<Json>
    requires n <= |run|
  {
    if n == 0 then None
    else if Saves(u, start, run, n - 1) && run[n - 1].key == key then Some(run[n - 1].v)
    else LastSaved(u, start, run, n - 1, key)
  }

  /** The last write to `key` that went through on `i`, since its last import. */
  ghost function OwnSaved(u: Setup, start: Cluster, run: seq<Step>, n: nat, i: string, key: string): Option<Json>
    requires n <= |run|
  {
    if n == 0 || (run[n - 1].Import? && run[n - 1].instance == i) then None
    else if Saves(u, start, run, n - 1) && run[n - 1].key == key && run[n - 1].instance == i then Some(run[n - 1].v)
    else OwnSaved(u, start, run, n - 1, i, key)
  }

  /** What `i` itself last gave the setting: a write, gone through or not, or a value its import brought. */
  ghost function OwnValue(u: Setup, start: Json, run: seq<Step>, n: nat, i: string, key: string): Json
    requires n <= |run|
  {
    if n == 0 then start else OwnStep(u, OwnValue(u, start, run, n - 1, i, key), run[n - 1], i, key)
  }

  /** What an instance itself makes of its value for a setting. */
  ghost function OwnStep(u: Setup, before: Json, s: Step, i: string, key: string): Json {
    if s.SetAttr? && s.instance == i && s.key == key then s.v
    else if s.Import? && s.instance == i && Brought(u, s.config, key).Some? then Brought(u, s.config, key).value
    else before
  }

  ghost function Brought(u: Setup, config: Json, key: string): Option<Json> {
    Imported(u.reg, config, u.order, key)
  }

  /** The instance that last changed the database. */
  ghost function LastStored(u: Setup, start: Cluster, run: seq<Step>, n: nat): Option<string> requires n <= |run| {
    if n == 0 then None
    else if run[n - 1].Import? || Saves(u, start, run, n - 1) then Some(run[n - 1].instance)
    else LastStored(u, start, run, n - 1)
  }

  // ---------- which writes go through ----------

  lemma StepClear(u: Setup, p: Process, s: Step, published: Option<Json>, key: string)
    requires Registered(u.reg) && (forall k :: k in u.order ==> k in u.reg)
    requires key in u.reg && (!s.Import? ==> s.key in u.reg)
    ensures Clear(Acted(u, p, s, published).doc, u.reg[key].path)
      <==> Clear(if s.Import? then s.config else p.doc, u.reg[key].path)
  {
    if s.SetAttr? {
      var path := u.reg[s.key].path;
      SetDefined(p.doc, path, s.v);
      if Set(p.doc, path, s.v).Some? {
        if key == s.key { WrittenClear(p.doc, path, s.v); } else { ClearKept(p.doc, path, s.v, u.reg[key].path); }
      }
    }
  }

  lemma ClearAt(u: Setup, c: Cluster, s: Step, d: Cluster, i: string, key: string)
    requires Stepped(u, c, s, d) && i in c.locals && Registered(u.reg) && key in u.reg
    ensures i in d.locals
    ensures Clear(d.locals[i].doc, u.reg[key].path) <==>
      Clear(if s.Import? && s.instance == i then s.config else c.locals[i].doc, u.reg[key].path)
  {
    StepLocal(u, c, s, d, i);
    if s.instance == i { StepClear(u, c.locals[i], s, Seen(c, s), key); }
  }

  lemma ClearNext(u: Setup, states: seq<Cluster>, run: seq<Step>, n: nat, i: string, key: string)
    requires IsRun(u, states, run) && n < |run| && i in states[0].locals && key in u.reg
    ensures i in states[n].locals && i in states[n + 1].locals
    ensures Clear(states[n + 1].locals[i].doc, u.reg[key].path) <==>
      Clear(if run[n].Import? && run[n].instance == i then run[n].config else states[n].locals[i].doc, u.reg[key].path)
  {
    RunReady(u, states, run, n);
    RunStep(u, states, run, n);
    ClearAt(u, states[n], run[n], states[n + 1], i, key);
  }

  /** A registered path is clear in an instance's document as it was in the one last imported. */
  lemma {:induction false} ClearAsBase(u: Setup, states: seq<Cluster>, run: seq<Step>, n: nat, i: string, key: string)
    requires IsRun(u, states, run) && n <= |run| && i in states[0].locals && key in u.reg
    ensures i in states[n].locals
    ensures Clear(states[n].locals[i].doc, u.reg[key].path)
      <==> Clear(Base(states[0].locals[i].doc, run, n, i), u.reg[key].path)
  {
    if n > 0 {
      ClearAsBase(u, states, run, n - 1, i, key);
      ClearNext(u, states, run, n - 1, i, key);
    }
  }

  /** So a write goes through exactly when its path is clear in what its instance last imported or started from. */
  lemma SavesExactly(u: Setup, states: seq<Cluster>, run: seq<Step>, n: nat)
    requires IsRun(u, states, run) && n < |run| && run[n].SetAttr?
    ensures Enabled(u, states[n], run[n])
    ensures Set(states[n].locals[run[n].instance].doc, u.reg[run[n].key].path, run[n].v).Some?
      <==> Saves(u, states[0], run, n)
  {
    var s := run[n];
    RunStep(u, states, run, n);
    RunReady(u, states, run, n);
    ClearAsBase(u, states, run, n, s.instance, s.key);
    SetDefined(states[n].locals[s.instance].doc, u.reg[s.key].path, s.v);
  }

  /** A step, with the write it may contain known to go through or to raise. */
  lemma StepKnown(u: Setup, states: seq<Cluster>, run: seq<Step>, n: nat) returns (saves: bool)
    requires IsRun(u, states, run) && n < |run|
    ensures saves == Saves(u, states[0], run, n)
    ensures Ready(u, states[n]) && StepIs(u, states[n], run[n], saves, states[n + 1])
    ensures states[n].locals.Keys == states[0].locals.Keys == states[n + 1].locals.Keys
    ensures states[n].redis.Some? == states[0].redis.Some?
  {
    RunStep(u, states, run, n);
    RunReady(u, states, run, n);
    RunReady(u, states, run, n + 1);
    if run[n].SetAttr? {
      SavesExactly(u, states, run, n);
      saves := Set(states[n].locals[run[n].instance].doc, u.reg[run[n].key].path, run[n].v).Some?;
    } else {
      saves := false;
    }
  }

  ghost predicate StepIs(u: Setup, c: Cluster, s: Step, saves: bool, d: Cluster) {
    && Stepped(u, c, s, d)
    && (saves <==> s.SetAttr? && Set(c.locals[s.instance].doc, u.reg[s.key].path, s.v).Some?)
  }
}
