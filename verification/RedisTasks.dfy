/** Tasks shared through Redis by any number of instances (tasks.py). */
module RedisTasks {
  import opened Lists
  import Tasks

  type ItemId = Tasks.ItemId

  predicate Named(item: ItemId) { Tasks.Named(item) }

  /** The hash from task to item id (empty when unnamed) and the item sets; Redis keeps no empty set. */
  datatype Redis = Redis(hash: map<string, string>, sets: map<string, set<string>>)

  function Tag(item: ItemId): string { if Named(item) then item.value else "" }

  function Members(r: Redis, item: string): set<string> { if item in r.sets then r.sets[item] else {} }

  function WithMembers(r: Redis, item: string, members: set<string>): Redis {
    r.(sets := if members == {} then r.sets - {item} else r.sets[item := members])
  }

  function Saved(r: Redis, task: string, item: ItemId): Redis {
    var r' := r.(hash := r.hash[task := Tag(item)]);
    if Named(item) then WithMembers(r', item.value, Members(r, item.value) + {task}) else r'
  }

  /** The first pipeline of a cleanup: hash entry and set member go, then the set is counted. */
  function Dropped(r: Redis, task: string, item: ItemId): Redis {
    var r' := r.(hash := r.hash - {task});
    if Named(item) then WithMembers(r', item.value, Members(r, item.value) - {task}) else r'
  }

  function Deleted(r: Redis, item: string): Redis { r.(sets := r.sets - {item}) }

  class RedisServer {
    var hash: map<string, string>
    var sets: map<string, set<string>>

    constructor ()
      ensures State() == Redis(map[], map[])
    {
      hash, sets := map[], map[];
    }

    function State(): Redis reads this { Redis(hash, sets) }

    /** redis_save_task: one pipeline. */
    method SaveTask(task: string, item: ItemId)
      modifies this
      ensures State() == Saved(old(State()), task, item)
    {
      hash := hash[task := if Named(item) then item.value else ""];
      if Named(item) {
        var members := if item.value in sets then sets[item.value] else {};
        sets := sets[item.value := members + {task}];
      }
    }

    /** redis_cleanup_task up to its first execute. */
    method CleanupFirst(task: string, item: ItemId) returns (empty: bool)
      modifies this
      ensures State() == Dropped(old(State()), task, item)
      ensures empty == (Named(item) && Members(State(), item.value) == {})
    {
      hash := hash - {task};
      empty := false;
      if Named(item) {
        var members := (if item.value in sets then sets[item.value] else {}) - {task};
        if members == {} { sets := sets - {item.value}; } else { sets := sets[item.value := members]; }
        empty := members == {};
      }
    }

    /** redis_cleanup_task's second execute, which deletes the set if it was counted empty. */
    method CleanupSecond(item: ItemId, empty: bool)
      requires empty ==> Named(item)
      modifies this
      ensures State() == if empty then Deleted(old(State()), item.value) else old(State())
    {
      if empty { sets := sets - {item.value}; }
    }
  }

  // ---------- interleavings ----------

  datatype Phase = Waiting | Counted(empty: bool) | Flushed

  /** One task on whichever instance runs it: its save and its cleanup proceed independently.
      `late` says that the save came after the cleanup's first pipeline. */
  datatype Info = Info(item: ItemId, saved: bool, phase: Phase, late: bool)

  datatype Cluster = Cluster(redis: Redis, info: map<string, Info>)

  datatype Step =
    | Create(task: string, item: ItemId)
    | Save(task: string)
    | CleanFirst(task: string)
    | CleanSecond(task: string)

  ghost predicate Enabled(c: Cluster, s: Step) {
    match s
    case Create(task, _) => task !in c.info
    case Save(task) => task in c.info && !c.info[task].saved
    case CleanFirst(task) => task in c.info && c.info[task].phase.Waiting?
    case CleanSecond(task) => task in c.info && c.info[task].phase.Counted?
  }

  function Next(c: Cluster, s: Step): Cluster {
    match s
    case Create(task, item) => c.(info := c.info[task := Info(item, false, Waiting, false)])
    case Save(task) =>
      if task !in c.info then c else
      var x := c.info[task];
      Cluster(Saved(c.redis, task, x.item), c.info[task := x.(saved := true, late := !x.phase.Waiting?)])
    case CleanFirst(task) =>
      if task !in c.info then c else
      var x := c.info[task];
      var r := Dropped(c.redis, task, x.item);
      var phase := if Named(x.item) then Counted(Members(r, x.item.value) == {}) else Flushed;
      Cluster(r, c.info[task := x.(phase := phase)])
    case CleanSecond(task) =>
      if task !in c.info || !c.info[task].phase.Counted? then c else
      var x := c.info[task];
      Cluster(if x.phase.empty && Named(x.item) then Deleted(c.redis, x.item.value) else c.redis,
              c.info[task := x.(phase := Flushed)])
  }

  /** The cluster after the first `n` steps. */
  function After(run: seq<Step>, n: nat): Cluster requires n <= |run| {
    if n == 0 then Cluster(Redis(map[], map[]), map[]) else Next(After(run, n - 1), run[n - 1])
  }

  ghost predicate EnabledAt(run: seq<Step>, n: nat) requires n < |run| { Enabled(After(run, n), run[n]) }

  ghost predicate ValidRun(run: seq<Step>) { forall n :: 0 <= n < |run| ==> EnabledAt(run, n) }

  predicate Live(x: Info) { x.saved && (x.phase.Waiting? || x.late) }

  ghost predicate InfoInv(c: Cluster) {
    forall t :: t in c.info ==>
      var x := c.info[t];
      (x.late ==> x.saved && !x.phase.Waiting?) && (x.phase.Counted? ==> Named(x.item))
  }

  /** The hash maps exactly the live tasks, each to its item. */
  ghost predicate HashInv(c: Cluster) {
    forall t :: (t in c.redis.hash <==> t in c.info && Live(c.info[t]))
             && (t in c.redis.hash ==> c.redis.hash[t] == Tag(c.info[t].item))
  }

  /** Every set member is a task the hash maps to that item. */
  ghost predicate SetsInv(r: Redis) {
    forall i :: i in r.sets ==> i != "" && r.sets[i] != {} && r.sets[i] <= Mapped(r, i)
  }

  ghost function Mapped(r: Redis, item: string): set<string> { set t | t in r.hash && r.hash[t] == item }

  ghost predicate Inv(c: Cluster) { InfoInv(c) && HashInv(c) && SetsInv(c.redis) }

  lemma MappedSaved(r: Redis, task: string, item: ItemId, i: string)
    requires task !in r.hash
    ensures Mapped(Saved(r, task, item), i) == Mapped(r, i) + (if i == Tag(item) then {task} else {})
  {
  }

  lemma MappedDropped(r: Redis, task: string, item: ItemId, i: string)
    ensures Mapped(Dropped(r, task, item), i) == Mapped(r, i) - {task}
  {
  }

  lemma SaveKeepsSets(r: Redis, task: string, item: ItemId)
    requires SetsInv(r) && task !in r.hash
    ensures SetsInv(Saved(r, task, item))
  {
  }

  lemma DropKeepsSets(r: Redis, task: string, item: ItemId)
    requires SetsInv(r) && (task in r.hash ==> r.hash[task] == Tag(item))
    ensures SetsInv(Dropped(r, task, item))
  {
  }

  lemma SaveKeeps(c: Cluster, task: string)
    requires Inv(c) && Enabled(c, Save(task))
    ensures Inv(Next(c, Save(task)))
  {
    SaveKeepsSets(c.redis, task, c.info[task].item);
  }

  lemma CleanFirstKeeps(c: Cluster, task: string)
    requires Inv(c) && Enabled(c, CleanFirst(task))
    ensures Inv(Next(c, CleanFirst(task)))
  {
    DropKeepsSets(c.redis, task, c.info[task].item);
  }

  lemma CleanSecondKeeps(c: Cluster, task: string)
    requires Inv(c) && Enabled(c, CleanSecond(task))
    ensures Inv(Next(c, CleanSecond(task)))
  {
  }

  lemma StepKeeps(c: Cluster, s: Step)
    requires Inv(c) && Enabled(c, s)
    ensures Inv(Next(c, s))
  {
    match s
    case Create(task, item) => assert Next(c, s).redis == c.redis;
    case Save(task) => SaveKeeps(c, task);
    case CleanFirst(task) => CleanFirstKeeps(c, task);
    case CleanSecond(task) => CleanSecondKeeps(c, task);
  }

  /** Over every interleaving, each item's set holds only tasks the hash maps to that item. */
  lemma {:induction false} SetsWithinHash(run: seq<Step>, n: nat)
    requires ValidRun(run) && n <= |run|
    ensures Inv(After(run, n))
  {
    if n > 0 {
      SetsWithinHash(run, n - 1);
      assert EnabledAt(run, n - 1);
      StepKeeps(After(run, n - 1), run[n - 1]);
    }
  }

  // ---------- when set and hash agree exactly ----------

  ghost predicate Agrees(c: Cluster, item: string) { Members(c.redis, item) == Mapped(c.redis, item) }

  /** A delete counted on an empty set is about to run although the item has a task again. */
  ghost predicate Loses(c: Cluster, s: Step, item: string) {
    && s.CleanSecond? && s.task in c.info && c.info[s.task].phase == Counted(true)
    && c.info[s.task].item == Some(item) && Mapped(c.redis, item) != {}
  }

  lemma StepAgrees(c: Cluster, s: Step, item: string)
    requires Inv(c) && Enabled(c, s) && item != "" && Agrees(c, item)
    ensures Agrees(Next(c, s), item) <==> !Loses(c, s, item)
  {
    match s
    case Create(task, own) => assert Next(c, s).redis == c.redis;
    case Save(task) => MappedSaved(c.redis, task, c.info[task].item, item);
    case CleanFirst(task) => MappedDropped(c.redis, task, c.info[task].item, item);
    case CleanSecond(task) => assert Mapped(Next(c, s).redis, item) == Mapped(c.redis, item);
  }

  ghost predicate AgreesAt(run: seq<Step>, n: nat, item: string) requires n <= |run| { Agrees(After(run, n), item) }

  ghost predicate LosesAt(run: seq<Step>, n: nat, item: string) requires n < |run| {
    Loses(After(run, n), run[n], item)
  }

  lemma AgreesNext(run: seq<Step>, n: nat, item: string)
    requires ValidRun(run) && item != "" && n < |run| && AgreesAt(run, n, item)
    ensures AgreesAt(run, n + 1, item) <==> !LosesAt(run, n, item)
  {
    SetsWithinHash(run, n);
    assert EnabledAt(run, n);
    StepAgrees(After(run, n), run[n], item);
  }

  lemma {:induction false} AgreesUntilLoss(run: seq<Step>, n: nat, item: string)
    requires ValidRun(run) && item != "" && n <= |run| && forall m :: 0 <= m < n ==> !LosesAt(run, m, item)
    ensures AgreesAt(run, n, item)
  {
    if n > 0 {
      AgreesUntilLoss(run, n - 1, item);
      AgreesNext(run, n - 1, item);
    }
  }

  /** A named item's set and the hash agree all along a run exactly when no such delete runs in it. */
  lemma AgreementExactly(run: seq<Step>, item: string)
    requires ValidRun(run) && item != ""
    ensures (forall n :: 0 <= n <= |run| ==> AgreesAt(run, n, item))
       <==> (forall n :: 0 <= n < |run| ==> !LosesAt(run, n, item))
  {
    if forall n :: 0 <= n < |run| ==> !LosesAt(run, n, item) {
      forall n | 0 <= n <= |run| ensures AgreesAt(run, n, item) { AgreesUntilLoss(run, n, item); }
    }
    if n :| 0 <= n < |run| && LosesAt(run, n, item) {
      if AgreesAt(run, n, item) { AgreesNext(run, n, item); }
    }
  }

  ghost predicate DeletePending(c: Cluster, item: string) {
    exists t :: t in c.info && c.info[t].phase == Counted(true) && c.info[t].item == Some(item)
  }

  ghost predicate SavesFor(c: Cluster, s: Step, item: string) {
    s.Save? && s.task in c.info && c.info[s.task].item == Some(item)
  }

  /** No save for the item falls between a cleanup's zero count and its delete. */
  ghost predicate NoSaveBetween(run: seq<Step>, item: string) {
    forall n :: 0 <= n < |run| ==> !SavesBetween(run, n, item)
  }

  ghost predicate SavesBetween(run: seq<Step>, n: nat, item: string) requires n < |run| {
    SavesFor(After(run, n), run[n], item) && DeletePending(After(run, n), item)
  }

  lemma StepUndisturbed(c: Cluster, s: Step, item: string)
    requires Inv(c) && Enabled(c, s) && item != "" && Agrees(c, item)
    requires DeletePending(c, item) ==> Mapped(c.redis, item) == {}
    requires SavesFor(c, s, item) ==> !DeletePending(c, item)
    ensures Agrees(Next(c, s), item)
    ensures DeletePending(Next(c, s), item) ==> Mapped(Next(c, s).redis, item) == {}
  {
    assert !Loses(c, s, item);
    StepAgrees(c, s, item);
    var d := Next(c, s);
    if t :| t in d.info && d.info[t].phase == Counted(true) && d.info[t].item == Some(item) {
      match s
      case Create(task, own) => assert d.redis == c.redis && t in c.info;
      case Save(task) => MappedSaved(c.redis, task, c.info[task].item, item);
      case CleanFirst(task) => MappedDropped(c.redis, task, c.info[task].item, item);
      case CleanSecond(task) => assert Mapped(d.redis, item) == Mapped(c.redis, item);
    }
  }

  /** Without a save in between, the item's set is exactly what the hash maps to it, all along the run. */
  lemma {:induction false} UndisturbedAgrees(run: seq<Step>, item: string, n: nat)
    requires ValidRun(run) && item != "" && NoSaveBetween(run, item) && n <= |run|
    ensures Agrees(After(run, n), item)
    ensures DeletePending(After(run, n), item) ==> Mapped(After(run, n).redis, item) == {}
  {
    if n > 0 {
      UndisturbedAgrees(run, item, n - 1);
      SetsWithinHash(run, n - 1);
      assert EnabledAt(run, n - 1) && !SavesBetween(run, n - 1, item);
      StepUndisturbed(After(run, n - 1), run[n - 1], item);
    }
  }

  /** A save between zero count and delete does lose its task from the set, while the hash keeps it. */
  lemma SaveBetweenIsLost(c: Cluster, cleaned: string, saved: string, item: string)
    requires Inv(c) && item != "" && saved != cleaned
    requires cleaned in c.info && c.info[cleaned].phase == Counted(true) && c.info[cleaned].item == Some(item)
    requires Enabled(c, Save(saved)) && c.info[saved].item == Some(item)
    ensures var d := Next(c, Save(saved));
      && Enabled(d, CleanSecond(cleaned)) && Loses(d, CleanSecond(cleaned), item)
      && saved in Mapped(Next(d, CleanSecond(cleaned)).redis, item)
      && Members(Next(d, CleanSecond(cleaned)).redis, item) == {}
  {
  }

  /** Two tasks of one item, the second saved between the zero count and the delete of the first one's cleanup. */
  function LosingRun(): seq<Step> {
    [Create("t", Some("i")), Create("u", Some("i")), Save("t"), CleanFirst("t"), Save("u"), CleanSecond("t")]
  }

  /** Both tasks are created and the first is saved. */
  lemma LosingStart()
    ensures var run := LosingRun();
      && After(run, 3) == Cluster(Redis(map["t" := "i"], map["i" := {"t"}]),
                                  map["t" := Info(Some("i"), true, Waiting, false),
                                      "u" := Info(Some("i"), false, Waiting, false)])
      && (forall n :: 0 <= n < 3 ==> EnabledAt(run, n))
  {
    var run := LosingRun();
    assert After(run, 0) == Cluster(Redis(map[], map[]), map[]);
    assert EnabledAt(run, 0) && After(run, 1) == Next(After(run, 0), run[0]);
    assert EnabledAt(run, 1) && After(run, 2) == Next(After(run, 1), run[1]);
    assert Members(Redis(map[], map[]), "i") + {"t"} == {"t"};
    assert Saved(Redis(map[], map[]), "t", Some("i")) == Redis(map["t" := "i"], map["i" := {"t"}]);
    assert EnabledAt(run, 2) && After(run, 3) == Next(After(run, 2), run[2]);
  }

  /** The first is counted out, the second is saved. */
  lemma LosingStates()
    ensures var run := LosingRun();
      && After(run, 5).redis == Redis(map["u" := "i"], map["i" := {"u"}])
      && "t" in After(run, 5).info && After(run, 5).info["t"] == Info(Some("i"), true, Counted(true), false)
      && (forall n :: 0 <= n < 5 ==> EnabledAt(run, n))
  {
    LosingStart();
    var run := LosingRun();
    var saved := After(run, 3).redis;
    assert Members(saved, "i") - {"t"} == {};
    assert Dropped(saved, "t", Some("i")) == Redis(map[], map[]);
    assert EnabledAt(run, 3) && After(run, 4) == Next(After(run, 3), run[3]);
    assert Members(Redis(map[], map[]), "i") + {"u"} == {"u"};
    assert Saved(Redis(map[], map[]), "u", Some("i")) == Redis(map["u" := "i"], map["i" := {"u"}]);
    assert EnabledAt(run, 4) && After(run, 5) == Next(After(run, 4), run[4]);
  }

  /** The loss is reached from the start: the set is gone and the hash still maps the task. */
  lemma LossIsReached()
    ensures ValidRun(LosingRun()) && LosesAt(LosingRun(), 5, "i") && !AgreesAt(LosingRun(), 6, "i")
    ensures After(LosingRun(), 6).redis == Redis(map["u" := "i"], map[])
  {
    LosingStates();
    var run := LosingRun();
    assert EnabledAt(run, 5);
    assert "u" in Mapped(After(run, 5).redis, "i");
    assert After(run, 6) == Next(After(run, 5), run[5]);
    assert "u" in Mapped(After(run, 6).redis, "i");
  }

  // ---------- quiescence ----------

  ghost predicate Quiescent(c: Cluster) {
    forall t :: t in c.info ==> c.info[t].saved && c.info[t].phase.Flushed?
  }

  /** When every task has been saved and cleaned up, Redis is empty exactly when each save came before its cleanup. */
  lemma QuiescentEmpty(run: seq<Step>)
    requires ValidRun(run) && Quiescent(After(run, |run|))
    ensures var c := After(run, |run|);
      c.redis == Redis(map[], map[]) <==> forall t :: t in c.info ==> !c.info[t].late
  {
    SetsWithinHash(run, |run|);
    var c := After(run, |run|);
    if forall t :: t in c.info ==> !c.info[t].late {
      assert c.redis.hash == map[];
      assert forall i :: Mapped(c.redis, i) == {};
      assert c.redis.sets == map[];
    }
    if t :| t in c.info && c.info[t].late { assert t in c.redis.hash; }
  }
}
