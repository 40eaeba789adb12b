/** The in-process task registry (tasks.py). */
module Tasks {
  import opened Lists

  type ItemId = Option<string>

  /** Whether `if id:` holds. */
  predicate Named(item: ItemId) { item.Some? && item.value != "" }

  /** The dicts `tasks` (its keys) and `item_tasks`. */
  datatype Registry = Registry(tasks: set<string>, itemTasks: map<ItemId, seq<string>>)

  function Created(r: Registry, task: string, item: ItemId): Registry {
    var list := if item in r.itemTasks then r.itemTasks[item] else [];
    Registry(r.tasks + {task}, r.itemTasks[item := list + [task]])
  }

  function Cleaned(r: Registry, task: string, item: ItemId): Registry {
    var tasks := r.tasks - {task};
    if Named(item) && item in r.itemTasks && task in r.itemTasks[item] then
      var list := RemoveFirst(r.itemTasks[item], task);
      Registry(tasks, if list == [] then r.itemTasks - {item} else r.itemTasks[item := list])
    else Registry(tasks, r.itemTasks)
  }

  function Stopped(r: Registry, task: string): Registry { r.(tasks := r.tasks - {task}) }

  class TaskRegistry {
    var tasks: set<string>
    var itemTasks: map<ItemId, seq<string>>

    constructor ()
      ensures State() == Registry({}, map[])
    {
      tasks, itemTasks := {}, map[];
    }

    function State(): Registry reads this { Registry(tasks, itemTasks) }

    /** The part of create_task before it first awaits. */
    method CreateTask(task: string, item: ItemId)
      modifies this
      ensures State() == Created(old(State()), task, item)
    {
      tasks := tasks + {task};
      if item in itemTasks && itemTasks[item] != [] {
        itemTasks := itemTasks[item := itemTasks[item] + [task]];
      } else {
        assert [] + [task] == [task];
        itemTasks := itemTasks[item := [task]];
      }
    }

    /** The part of cleanup_task after its last await. */
    method CleanupTask(task: string, item: ItemId)
      modifies this
      ensures State() == Cleaned(old(State()), task, item)
    {
      tasks := tasks - {task};
      if Named(item) && item in itemTasks && task in itemTasks[item] {
        itemTasks := itemTasks[item := RemoveFirst(itemTasks[item], task)];
        if itemTasks[item] == [] {
          itemTasks := itemTasks - {item};
        }
      }
    }

    /** stop_task without Redis: the task is cancelled when it was still registered. */
    method StopTask(task: string) returns (cancelled: bool)
      modifies this
      ensures cancelled == (task in old(tasks))
      ensures State() == Stopped(old(State()), task)
    {
      cancelled := task in tasks;
      tasks := tasks - {task};
    }
  }

  // ---------- runs of one process ----------

  datatype Event = Create(task: string, item: ItemId) | Cleanup(task: string) | Stop(task: string)

  datatype Creation = Creation(task: string, item: ItemId)

  /** The registry with the history that explains it. */
  datatype Process = Process(registry: Registry, created: seq<Creation>, cleaned: set<string>, stopped: set<string>)

  ghost predicate WasCreated(p: Process, task: string) {
    exists i :: 0 <= i < |p.created| && p.created[i].task == task
  }

  function ItemOf(created: seq<Creation>, task: string): ItemId {
    if created == [] then None
    else if created[|created| - 1].task == task then created[|created| - 1].item
    else ItemOf(created[..|created| - 1], task)
  }

  /** Task ids are new; a cleanup belongs to a task that was created. Stops may name anything. */
  ghost predicate Enabled(p: Process, e: Event) {
    match e
    case Create(task, _) => !WasCreated(p, task)
    case Cleanup(task) => WasCreated(p, task)
    case Stop(_) => true
  }

  function Apply(p: Process, e: Event): Process {
    match e
    case Create(task, item) =>
      Process(Created(p.registry, task, item), p.created + [Creation(task, item)], p.cleaned, p.stopped)
    case Cleanup(task) =>
      p.(registry := Cleaned(p.registry, task, ItemOf(p.created, task)), cleaned := p.cleaned + {task})
    case Stop(task) => p.(registry := Stopped(p.registry, task),
                          stopped := if task in p.registry.tasks then p.stopped + {task} else p.stopped)
  }

  /** The process after the first `n` events. */
  function After(run: seq<Event>, n: nat): Process requires n <= |run| {
    if n == 0 then Process(Registry({}, map[]), [], {}, {}) else Apply(After(run, n - 1), run[n - 1])
  }

  ghost predicate EnabledAt(run: seq<Event>, n: nat) requires n < |run| { Enabled(After(run, n), run[n]) }

  ghost predicate ValidRun(run: seq<Event>) { forall n :: 0 <= n < |run| ==> EnabledAt(run, n) }

  /** The item's tasks in creation order; for a named item only those whose cleanup has not run. */
  function Pending(created: seq<Creation>, cleaned: set<string>, item: ItemId): seq<string> {
    if created == [] then []
    else
      var last := created[|created| - 1];
      Pending(created[..|created| - 1], cleaned, item)
      + (if last.item == item && !(Named(item) && last.task in cleaned) then [last.task] else [])
  }

  ghost predicate UniqueTasks(created: seq<Creation>) {
    forall i, j :: 0 <= i < j < |created| ==> created[i].task != created[j].task
  }

  ghost predicate ListsPending(p: Process, item: ItemId) {
    if Pending(p.created, p.cleaned, item) == [] then item !in p.registry.itemTasks
    else item in p.registry.itemTasks && p.registry.itemTasks[item] == Pending(p.created, p.cleaned, item)
  }

  /** Every list is the pending list of its item. */
  ghost predicate ListsInv(p: Process) {
    UniqueTasks(p.created) && forall item :: ListsPending(p, item)
  }

  /** `tasks` holds what was neither cleaned up nor stopped. */
  ghost predicate TasksInv(p: Process) {
    && (forall t :: t in p.registry.tasks <==> WasCreated(p, t) && t !in p.cleaned && t !in p.stopped)
    && (forall t :: t in p.stopped || t in p.cleaned ==> WasCreated(p, t))
  }

  ghost predicate Inv(p: Process) { ListsInv(p) && TasksInv(p) }

  lemma {:induction false} PendingTasks(created: seq<Creation>, cleaned: set<string>, item: ItemId)
    ensures forall t :: t in Pending(created, cleaned, item) ==>
      exists i :: 0 <= i < |created| && created[i] == Creation(t, item) && !(Named(item) && t in cleaned)
    ensures UniqueTasks(created) ==> NoDups(Pending(created, cleaned, item))
  {
    if created != [] {
      var front, last := created[..|created| - 1], created[|created| - 1];
      PendingTasks(front, cleaned, item);
      assert forall i :: 0 <= i < |front| ==> front[i] == created[i];
    }
  }

  /** A cleanup takes its task out of its own item's list and leaves every other list alone. */
  lemma {:induction false} PendingCleanup(created: seq<Creation>, cleaned: set<string>, task: string, item: ItemId)
    requires UniqueTasks(created)
    ensures var list := Pending(created, cleaned, item);
      Pending(created, cleaned + {task}, item) == if Named(item) && task in list then RemoveFirst(list, task) else list
  {
    if created != [] {
      var front, last := created[..|created| - 1], created[|created| - 1];
      PendingCleanup(front, cleaned, task, item);
      var list := Pending(front, cleaned, item);
      if last.item == item && !(Named(item) && last.task in cleaned) {
        if last.task == task { NotPending(created, cleaned, item); }
        RemoveFirstOfLast(list, task, last.task);
      } else {
        assert list + [] == list;
      }
    }
  }

  lemma NotPending(created: seq<Creation>, cleaned: set<string>, item: ItemId)
    requires UniqueTasks(created) && created != []
    ensures created[|created| - 1].task !in Pending(created[..|created| - 1], cleaned, item)
  {
    PendingTasks(created[..|created| - 1], cleaned, item);
  }

  lemma {:induction false} ItemOfCreated(created: seq<Creation>, i: nat)
    requires UniqueTasks(created) && i < |created|
    ensures ItemOf(created, created[i].task) == created[i].item
  {
    if i < |created| - 1 { ItemOfCreated(created[..|created| - 1], i); }
  }

  lemma CreateKeeps(p: Process, task: string, item: ItemId)
    requires Inv(p) && Enabled(p, Create(task, item))
    ensures Inv(Apply(p, Create(task, item)))
  {
    var q := Apply(p, Create(task, item));
    assert q.created[..|p.created|] == p.created;
    forall other ensures ListsPending(q, other) {
      assert ListsPending(p, other);
      assert task in p.cleaned ==> WasCreated(p, task);
    }
    CreatedTasks(p, task, item);
    assert task in p.stopped ==> WasCreated(p, task);
  }

  lemma CreatedTasks(p: Process, task: string, item: ItemId)
    ensures forall t :: WasCreated(Apply(p, Create(task, item)), t) <==> WasCreated(p, t) || t == task
  {
    var q := Apply(p, Create(task, item));
    forall t | WasCreated(p, t) || t == task ensures WasCreated(q, t) {
      if WasCreated(p, t) {
        var i :| 0 <= i < |p.created| && p.created[i].task == t;
        assert q.created[i].task == t;
      } else {
        assert q.created[|p.created|].task == t;
      }
    }
  }

  lemma CleanupKeeps(p: Process, task: string)
    requires Inv(p) && Enabled(p, Cleanup(task))
    ensures Inv(Apply(p, Cleanup(task)))
  {
    var q := Apply(p, Cleanup(task));
    var i :| 0 <= i < |p.created| && p.created[i].task == task;
    forall item ensures ListsPending(q, item) { CleanupList(p, i, item); }
    SameCreated(p, q);
  }

  lemma CleanupList(p: Process, i: nat, item: ItemId)
    requires ListsInv(p) && i < |p.created|
    ensures ListsPending(Apply(p, Cleanup(p.created[i].task)), item)
  {
    ItemOfCreated(p.created, i);
    assert ListsPending(p, item);
    if item == p.created[i].item {
      OwnListCleaned(p, p.created[i].task, item);
    } else {
      OtherListCleaned(p, i, item);
    }
  }

  lemma OwnListCleaned(p: Process, task: string, item: ItemId)
    requires UniqueTasks(p.created) && ListsPending(p, item) && ItemOf(p.created, task) == item
    ensures ListsPending(Apply(p, Cleanup(task)), item)
  {
    PendingCleanup(p.created, p.cleaned, task, item);
  }

  lemma OtherListCleaned(p: Process, i: nat, item: ItemId)
    requires UniqueTasks(p.created) && ListsPending(p, item) && i < |p.created|
    requires p.created[i].item == ItemOf(p.created, p.created[i].task) != item
    ensures ListsPending(Apply(p, Cleanup(p.created[i].task)), item)
  {
    var task := p.created[i].task;
    PendingCleanup(p.created, p.cleaned, task, item);
    NotListed(p.created, p.cleaned, i, item);
  }

  lemma NotListed(created: seq<Creation>, cleaned: set<string>, i: nat, item: ItemId)
    requires UniqueTasks(created) && i < |created| && created[i].item != item
    ensures created[i].task !in Pending(created, cleaned, item)
  {
    PendingTasks(created, cleaned, item);
  }

  lemma SameCreated(p: Process, q: Process)
    requires p.created == q.created
    ensures forall t :: WasCreated(q, t) <==> WasCreated(p, t)
  {
  }

  lemma StopKeeps(p: Process, task: string)
    requires Inv(p)
    ensures Inv(Apply(p, Stop(task)))
  {
    var q := Apply(p, Stop(task));
    forall item ensures ListsPending(q, item) { assert ListsPending(p, item); }
    SameCreated(p, q);
  }

  lemma StepKeeps(p: Process, e: Event)
    requires Inv(p) && Enabled(p, e)
    ensures Inv(Apply(p, e))
  {
    match e
    case Create(task, item) => CreateKeeps(p, task, item);
    case Cleanup(task) => CleanupKeeps(p, task);
    case Stop(task) => StopKeeps(p, task);
  }

  /** In every reachable state item_tasks lists, in creation order, each named item's tasks still to be cleaned up,
      holds no empty list, and `tasks` holds exactly what was neither cleaned up nor stopped. */
  lemma {:induction false} RegistryInvariant(run: seq<Event>, n: nat)
    requires ValidRun(run) && n <= |run|
    ensures Inv(After(run, n))
  {
    if n > 0 {
      RegistryInvariant(run, n - 1);
      assert EnabledAt(run, n - 1);
      StepKeeps(After(run, n - 1), run[n - 1]);
    } else {
      assert forall item :: Pending([], {}, item) == [];
    }
  }

  ghost predicate Cancels(run: seq<Event>, n: nat, task: string) requires n < |run| {
    run[n] == Stop(task) && task in After(run, n).registry.tasks
  }

  /** At most one stop call ever cancels a given task. */
  lemma StopsOnce(run: seq<Event>, i: nat, j: nat, task: string)
    requires ValidRun(run) && i < j < |run| && Cancels(run, i, task)
    ensures !Cancels(run, j, task)
  {
    StaysStopped(run, i + 1, j, task);
    RegistryInvariant(run, j);
    StoppedIsGone(After(run, j), task);
  }

  lemma {:induction false} StaysStopped(run: seq<Event>, i: nat, j: nat, task: string)
    requires i <= j <= |run| && task in After(run, i).stopped
    ensures task in After(run, j).stopped
    decreases j
  {
    if i < j {
      StaysStopped(run, i, j - 1, task);
      StoppedStays(After(run, j - 1), run[j - 1], task);
    }
  }

  lemma StoppedStays(p: Process, e: Event, task: string)
    requires task in p.stopped
    ensures task in Apply(p, e).stopped
  {
  }

  lemma StoppedIsGone(p: Process, task: string)
    requires Inv(p) && task in p.stopped
    ensures task !in p.registry.tasks
  {
  }

  // ---------- stopping every task of an item ----------

  /** A cleanup or a creation of one of the item's tasks. */
  datatype Change = CleanUp(task: string) | Appear(task: string)

  /** What happens while one stop is awaited, in order: cleanups shrink the live list, creations lengthen it, and other
      calls may stop tasks. */
  datatype Meanwhile = Meanwhile(changes: seq<Change>, stopped: set<string>)

  /** Once the list is empty `item_tasks` drops it, and later creations start another. */
  function ChangedBy(list: seq<string>, c: Change): seq<string> {
    if list == [] then []
    else match c case CleanUp(t) => RemoveFirst(list, t) case Appear(t) => list + [t]
  }

  function Changed(list: seq<string>, changes: seq<Change>): seq<string>
    decreases |changes|
  {
    if changes == [] then list else Changed(ChangedBy(list, changes[0]), changes[1..])
  }

  /** The live list never holds a task twice. */
  ghost predicate Distinct(list: seq<string>, during: seq<Meanwhile>)
    decreases |during|
  {
    NoDups(list) && (during != [] ==> Distinct(Changed(list, during[0].changes), during[1..]))
  }

  /** A call of stop_task, which fails on a task no longer registered. */
  datatype StopCall = StopCall(task: string, ok: bool)

  /** The calls in-process stop_item_tasks makes: it walks the live list by position and ends with the first call
      that fails, on a task in `absent`. `during[n]` is what happens in its n-th stop. */
  function Calls(list: seq<string>, cursor: nat, absent: set<string>, during: seq<Meanwhile>): seq<StopCall>
    decreases |during|, |list| - cursor
  {
    if cursor >= |list| then []
    else if list[cursor] in absent then [StopCall(list[cursor], false)]
    else if during == [] then [StopCall(list[cursor], true)] + Calls(list, cursor + 1, absent, [])
    else
      var m := during[0];
      [StopCall(list[cursor], true)] + Calls(Changed(list, m.changes), cursor + 1, absent + m.stopped, during[1..])
  }

  method StopItemTasks(list: seq<string>, absent: set<string>, during: seq<Meanwhile>)
    returns (calls: seq<StopCall>, ok: bool)
    ensures calls == Calls(list, 0, absent, during)
    ensures ok <==> forall c :: c in calls ==> c.ok
  {
    calls, ok := [], true;
    var live, gone, cursor, later := list, absent, 0, during;
    while cursor < |live|
      invariant calls + Calls(live, cursor, gone, later) == Calls(list, 0, absent, during)
      invariant ok && forall c :: c in calls ==> c.ok
      decreases |later|, |live| - cursor
    {
      var task := live[cursor];
      if task in gone { return calls + [StopCall(task, false)], false; }
      calls := calls + [StopCall(task, true)];
      if later != [] {
        live, gone, later := Changed(live, later[0].changes), gone + later[0].stopped, later[1..];
      }
      cursor := cursor + 1;
    }
    assert calls + [] == calls;
  }

  /** The live list, parted into what the walk has been to and what it has not. */
  datatype Halves = Halves(behind: seq<string>, ahead: seq<string>)

  function Live(h: Halves): seq<string> { h.behind + h.ahead }

  function SplitBy(h: Halves, c: Change): Halves {
    if Live(h) == [] then h
    else match c
      case CleanUp(t) =>
        if t in h.behind then h.(behind := RemoveFirst(h.behind, t)) else h.(ahead := RemoveFirst(h.ahead, t))
      case Appear(t) => h.(ahead := h.ahead + [t])
  }

  function Split(h: Halves, changes: seq<Change>): Halves
    decreases |changes|
  {
    if changes == [] then h else Split(SplitBy(h, changes[0]), changes[1..])
  }

  function Advanced(h: Halves): Halves requires h.ahead != [] { Halves(h.behind + [h.ahead[0]], h.ahead[1..]) }

  /** What the walk should do: go on with the next task that it has not been to, however the list has changed. */
  function Intended(h: Halves, absent: set<string>, during: seq<Meanwhile>): seq<StopCall>
    decreases |during|, |h.ahead|
  {
    if h.ahead == [] then []
    else if h.ahead[0] in absent then [StopCall(h.ahead[0], false)]
    else if during == [] then [StopCall(h.ahead[0], true)] + Intended(Advanced(h), absent, [])
    else
      var m := during[0];
      [StopCall(h.ahead[0], true)] + Intended(Split(Advanced(h), m.changes), absent + m.stopped, during[1..])
  }

  /** None of the tasks is cleaned up. */
  ghost predicate Untouched(tasks: seq<string>, changes: seq<Change>) {
    forall t :: t in tasks ==> CleanUp(t) !in changes
  }

  /** In no stop that leaves something to go on with is a task that the walk has been to cleaned up. */
  ghost predicate NoShift(h: Halves, absent: set<string>, during: seq<Meanwhile>)
    decreases |during|
  {
    h.ahead != [] && h.ahead[0] !in absent && during != [] ==>
      var m := during[0]; var after := Split(Advanced(h), m.changes);
      after.ahead != [] ==>
        Untouched(h.behind + [h.ahead[0]], m.changes) && NoShift(after, absent + m.stopped, during[1..])
  }

  lemma {:induction false} RemoveFirstParts(a: seq<string>, b: seq<string>, t: string)
    ensures RemoveFirst(a + b, t) == if t in a then RemoveFirst(a, t) + b else a + RemoveFirst(b, t)
  {
    if a == [] {
      assert a + b == b;
    } else {
      assert (a + b)[1..] == a[1..] + b;
      RemoveFirstParts(a[1..], b, t);
    }
  }

  lemma {:induction false} RemoveFirstSize(s: seq<string>, t: string)
    ensures |RemoveFirst(s, t)| == if t in s then |s| - 1 else |s|
    ensures t !in s ==> RemoveFirst(s, t) == s
    ensures forall x :: x in s && x != t ==> x in RemoveFirst(s, t)
  {
    if s != [] { RemoveFirstSize(s[1..], t); }
  }

  /** The halves follow the list. */
  lemma {:induction false} SplitLive(h: Halves, changes: seq<Change>)
    ensures Live(Split(h, changes)) == Changed(Live(h), changes)
    decreases |changes|
  {
    if changes != [] {
      var c := changes[0];
      if c.CleanUp? { RemoveFirstParts(h.behind, h.ahead, c.task); }
      assert Live(SplitBy(h, c)) == ChangedBy(Live(h), c);
      SplitLive(SplitBy(h, c), changes[1..]);
    }
  }

  /** What the walk has been to stays as it is exactly when none of it is cleaned up, and gets shorter otherwise. */
  lemma {:induction false} BehindExactly(h: Halves, changes: seq<Change>)
    requires h.behind != []
    ensures if Untouched(h.behind, changes) then Split(h, changes).behind == h.behind
            else |Split(h, changes).behind| < |h.behind|
    decreases |changes|
  {
    if changes != [] {
      var c, rest := changes[0], changes[1..];
      var g := SplitBy(h, c);
      assert forall t :: CleanUp(t) in changes <==> c == CleanUp(t) || CleanUp(t) in rest;
      if c.CleanUp? { RemoveFirstSize(h.behind, c.task); }
      if c.CleanUp? && c.task in h.behind {
        BehindShrinks(g, rest);
      } else {
        BehindExactly(g, rest);
      }
    }
  }

  lemma {:induction false} BehindShrinks(h: Halves, changes: seq<Change>)
    ensures |Split(h, changes).behind| <= |h.behind|
    decreases |changes|
  {
    if changes != [] {
      if changes[0].CleanUp? { RemoveFirstSize(h.behind, changes[0].task); }
      BehindShrinks(SplitBy(h, changes[0]), changes[1..]);
    }
  }

  /** After a stop the walk goes on with the next task that it has not been to exactly when none it has been to was
      cleaned up meanwhile. */
  lemma NextVisit(h: Halves, changes: seq<Change>)
    requires h.behind != [] && NoDups(Changed(Live(h), changes)) && Split(h, changes).ahead != []
    ensures var left, next, cursor := Changed(Live(h), changes), Split(h, changes).ahead[0], |h.behind|;
      (cursor < |left| && left[cursor] == next) <==> Untouched(h.behind, changes)
  {
    var after := Split(h, changes);
    SplitLive(h, changes);
    BehindExactly(h, changes);
    assert Live(after)[|after.behind|] == after.ahead[0];
  }

  lemma SameTails(x: StopCall, a: seq<StopCall>, b: seq<StopCall>)
    ensures [x] + a == [x] + b <==> a == b
  {
    assert ([x] + a)[1..] == a && ([x] + b)[1..] == b;
  }

  /** One stop, after which the walk has been to `h.behind`: the rest goes as intended only when the list does not
      shift, and with nothing left to go on with it does. */
  lemma StopItemStep(h: Halves, absent: set<string>, changes: seq<Change>, later: seq<Meanwhile>)
    requires h.behind != [] && NoDups(Changed(Live(h), changes))
    ensures var after := Split(h, changes);
      var goesOn := Calls(Changed(Live(h), changes), |h.behind|, absent, later) == Intended(after, absent, later);
      if after.ahead == [] then goesOn else goesOn ==> Untouched(h.behind, changes)
  {
    var after := Split(h, changes);
    SplitLive(h, changes);
    BehindShrinks(h, changes);
    if after.ahead != [] {
      NextVisit(h, changes);
      if Calls(Live(after), |h.behind|, absent, later) == Intended(after, absent, later) {
        assert Intended(after, absent, later)[0].task == after.ahead[0];
      }
    }
  }

  /** The whole call stops what it should, in order, exactly when no such cleanup shifts the list under it. */
  lemma {:induction false} StopItemExactly(h: Halves, absent: set<string>, during: seq<Meanwhile>)
    requires Distinct(Live(h), during)
    ensures Calls(Live(h), |h.behind|, absent, during) == Intended(h, absent, during) <==> NoShift(h, absent, during)
    decreases |during|, |h.ahead|
  {
    if h.ahead == [] || h.ahead[0] in absent { return; }
    var g, x := Advanced(h), StopCall(h.ahead[0], true);
    assert Live(g) == Live(h);
    if during == [] {
      StopItemExactly(g, absent, []);
      SameTails(x, Calls(Live(g), |g.behind|, absent, []), Intended(g, absent, []));
    } else {
      var changes, gone, later := during[0].changes, absent + during[0].stopped, during[1..];
      var after := Split(g, changes);
      StopItemStep(g, gone, changes, later);
      SameTails(x, Calls(Changed(Live(g), changes), |g.behind|, gone, later), Intended(after, gone, later));
      if Untouched(g.behind, changes) {
        SplitLive(g, changes);
        BehindExactly(g, changes);
        StopItemExactly(after, gone, later);
      }
    }
  }

  lemma {:induction false} StaysAhead(h: Halves, changes: seq<Change>, t: string)
    requires t in h.ahead && CleanUp(t) !in changes
    ensures t in Split(h, changes).ahead
    decreases |changes|
  {
    if changes != [] {
      if changes[0].CleanUp? { RemoveFirstSize(h.ahead, changes[0].task); }
      StaysAhead(SplitBy(h, changes[0]), changes[1..], t);
    }
  }

  /** When no other call stops anything, what should be stopped is every listed task that no cleanup takes first. */
  lemma {:induction false} IntendedMissesNone(h: Halves, during: seq<Meanwhile>, t: string)
    requires t in h.ahead && forall n :: 0 <= n < |during| ==> during[n].stopped == {}
    ensures StopCall(t, true) in Intended(h, {}, during)
      || exists n :: 0 <= n < |during| && CleanUp(t) in during[n].changes
    decreases |during|, |h.ahead|
  {
    if t == h.ahead[0] { return; }
    assert t in Advanced(h).ahead;
    if during == [] {
      IntendedMissesNone(Advanced(h), [], t);
    } else if CleanUp(t) !in during[0].changes {
      StaysAhead(Advanced(h), during[0].changes, t);
      assert forall n :: 0 <= n < |during[1..]| ==> during[1..][n] == during[n + 1];
      IntendedMissesNone(Split(Advanced(h), during[0].changes), during[1..], t);
      assert {} + during[0].stopped == {};
    }
  }

  // ---------- cleanups that lag one stop behind ----------

  function EveryOther(s: seq<string>): seq<string> {
    if s == [] then [] else [s[0]] + (if |s| == 1 then [] else EveryOther(s[2..]))
  }

  function AllOk(tasks: seq<string>): seq<StopCall> { Map(tasks, (t: string) => StopCall(t, true)) }

  /** Each stopped task is cleaned up during the next stop, as the event loop has it when nothing else runs: `last` was
      stopped before the first of the calls. */
  ghost predicate Lagging(calls: seq<StopCall>, during: seq<Meanwhile>, last: Option<string>) {
    && |during| >= |calls|
    && forall n :: 0 <= n < |calls| ==>
         during[n] == Meanwhile(if n > 0 then [CleanUp(calls[n - 1].task)]
                                else if last.Some? then [CleanUp(last.value)] else [], {})
  }

  lemma LaggingRest(calls: seq<StopCall>, during: seq<Meanwhile>, last: Option<string>)
    requires calls != [] && Lagging(calls, during, last)
    ensures during != [] && Lagging(calls[1..], during[1..], Some(calls[0].task))
  {
  }

  lemma {:induction false} LaggingCalls(behind: seq<string>, ahead: seq<string>, last: string, during: seq<Meanwhile>)
    requires NoDups(behind + ahead) && last in behind
    requires Lagging(Calls(behind + ahead, |behind|, {}, during), during, Some(last))
    ensures Calls(behind + ahead, |behind|, {}, during) == AllOk(EveryOther(ahead))
    decreases |ahead|
  {
    var list := behind + ahead;
    var calls := Calls(list, |behind|, {}, during);
    if ahead != [] {
      LaggingRest(calls, during, Some(last));
      RemoveFirstParts(behind, ahead, last);
      RemoveFirstSize(behind, last);
      var left := RemoveFirst(behind, last) + ahead;
      assert Changed(list, [CleanUp(last)]) == left by { assert [CleanUp(last)][1..] == []; }
      assert {} + during[0].stopped == {};
      assert calls[1..] == Calls(left, |behind| + 1, {}, during[1..]);
      if |ahead| > 1 {
        var behind' := RemoveFirst(behind, last) + ahead[..2];
        assert left == behind' + ahead[2..];
        RemovedNoDups(list, last);
        assert behind'[|behind| - 1] == ahead[0];
        LaggingCalls(behind', ahead[2..], ahead[0], during[1..]);
        assert EveryOther(ahead) == [ahead[0]] + EveryOther(ahead[2..]);
      } else {
        assert EveryOther(ahead) == [ahead[0]];
      }
    }
  }

  lemma {:induction false} RemovedNoDups(s: seq<string>, t: string)
    requires NoDups(s)
    ensures NoDups(RemoveFirst(s, t)) && forall x :: x in RemoveFirst(s, t) ==> x in s
  {
    if s != [] && s[0] != t {
      RemovedNoDups(s[1..], t);
      var rest := RemoveFirst(s[1..], t);
      forall i | 0 <= i < |rest| ensures rest[i] != s[0] {
        assert rest[i] in s[1..];
        var j :| 0 <= j < |s[1..]| && s[1..][j] == rest[i];
        assert s[j + 1] == rest[i];
      }
    }
  }

  lemma {:induction false} EveryOtherAt(s: seq<string>, i: nat)
    requires NoDups(s) && i < |s|
    ensures s[i] in EveryOther(s) <==> i % 2 == 0
    ensures forall x :: x in EveryOther(s) ==> x in s
    decreases |s|
  {
    if |s| > 1 {
      var rest := s[2..];
      assert EveryOther(s) == [s[0]] + EveryOther(rest);
      assert forall j :: 0 <= j < |rest| ==> rest[j] == s[j + 2];
      if rest != [] { EveryOtherAt(rest, if i >= 2 then i - 2 else 0); }
    }
  }

  lemma LaggingWhole(list: seq<string>, during: seq<Meanwhile>)
    requires NoDups(list) && list != [] && Lagging(Calls(list, 0, {}, during), during, None)
    ensures Calls(list, 0, {}, during) == [StopCall(list[0], true)] + AllOk(EveryOther(list[1..]))
  {
    var calls := Calls(list, 0, {}, during);
    LaggingRest(calls, during, None);
    assert {} + during[0].stopped == {};
    assert calls[1..] == Calls(list, 1, {}, during[1..]);
    assert list == [list[0]] + list[1..];
    LaggingCalls([list[0]], list[1..], list[0], during[1..]);
  }

  lemma AllOkHolds(tasks: seq<string>, t: string)
    ensures StopCall(t, true) in AllOk(tasks) <==> t in tasks
  {
    if t in tasks {
      var j :| 0 <= j < |tasks| && tasks[j] == t;
      assert AllOk(tasks)[j] == StopCall(t, true);
    }
  }

  lemma FirstAndOdd(list: seq<string>, i: nat)
    requires NoDups(list) && i < |list|
    ensures StopCall(list[i], true) in [StopCall(list[0], true)] + AllOk(EveryOther(list[1..]))
      <==> i == 0 || i % 2 == 1
  {
    if i > 0 {
      var rest, before := list[1..], i - 1;
      assert rest[before] == list[i] != list[0];
      EveryOtherAt(rest, before);
      AllOkHolds(EveryOther(rest), list[i]);
    }
  }

  /** When each stopped task is cleaned up during the next stop, the call reaches the first task and those at odd
      positions, and misses all others. */
  lemma LaggingMisses(list: seq<string>, during: seq<Meanwhile>, i: nat)
    requires NoDups(list) && i < |list| && Lagging(Calls(list, 0, {}, during), during, None)
    ensures StopCall(list[i], true) in Calls(list, 0, {}, during) <==> i == 0 || i % 2 == 1
  {
    LaggingWhole(list, during);
    FirstAndOdd(list, i);
  }

  /** Three tasks, the first cleaned up while the second is being stopped: the third is never stopped. */
  lemma StopItemCanSkip()
    ensures var during := [Meanwhile([], {}), Meanwhile([CleanUp("a")], {})];
      && Calls(["a", "b", "c"], 0, {}, during) == [StopCall("a", true), StopCall("b", true)]
      && Intended(Halves([], ["a", "b", "c"]), {}, during)
           == [StopCall("a", true), StopCall("b", true), StopCall("c", true)]
  {
    var during := [Meanwhile([], {}), Meanwhile([CleanUp("a")], {})];
    var list := ["a", "b", "c"];
    assert during[1..][0] == during[1] && during[1..][1..] == [] && [CleanUp("a")][1..] == [];
    assert list[1..] == ["b", "c"] && list[1..][1..] == ["c"] && list[1..][1..][1..] == [];
    assert Changed(list, during[1].changes) == ["b", "c"];
    var h := Halves(["a", "b"], ["c"]);
    assert Advanced(Advanced(Halves([], list))) == h;
    assert ["a", "b"][1..] == ["b"];
    assert Split(h, during[1].changes) == Halves(["b"], ["c"]);
  }
}
