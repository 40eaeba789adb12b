/** The link between shared chats and their snapshot rows (models/chats.py, routers/chats.py). */
module ChatShares {
  import opened Lists
  import opened ChatStore

  /** Share ids and snapshot rows point at each other: no missing snapshot, no second one, no orphan. */
  ghost predicate Linked(s: State) {
    && (forall c :: c in s.chats && s.chats[c].owner.User? && s.chats[c].shareId.Some? ==>
          PointsAt(s, c, s.chats[c].shareId.value))
    && (forall x :: x in s.chats && s.chats[x].owner.SnapshotOf? ==> PointsBack(s, x, s.chats[x].owner.chat))
  }

  ghost predicate PointsAt(s: State, c: string, x: string) {
    x in s.chats && s.chats[x].owner == SnapshotOf(c)
  }

  ghost predicate PointsBack(s: State, x: string, c: string) requires x in s.chats {
    s.chats[x].shareId.None? && c in s.chats && s.chats[c].owner.User? && s.chats[c].shareId == Some(x)
  }

  /** A chat's share id is set exactly when it has one snapshot row, and names that row; nothing else has snapshots. */
  lemma LinkedMeaning(s: State, c: string)
    requires Linked(s)
    ensures Snapshots(s.chats, c) ==
      if c in s.chats && s.chats[c].owner.User? && s.chats[c].shareId.Some? then {s.chats[c].shareId.value} else {}
    ensures |Snapshots(s.chats, c)| <= 1
  {
  }

  /** What must hold before a step for the links to be whole afterwards. */
  ghost predicate ShareOk(s: State, op: Op) {
    match op
    case Delete(id, user, admin) =>
      id in s.chats ==> if admin then s.chats[id].owner.User? else Owns(s.chats, id, user) || s.chats[id].shareId.None?
    case DeleteInFolder(user, folder) =>
      forall c :: Owns(s.chats, c, user) && s.chats[c].folder == Some(folder) ==> s.chats[c].shareId.None?
    case _ => true
  }

  lemma NewRowLinks(s: State, newId: string, c: Chat)
    requires Linked(s) && newId !in s.chats && c.owner.User? && c.shareId.None?
    ensures Linked(State(s.chats[newId := c], s.rows))
  {
  }

  /** Steps that keep every row's owner and share id keep the links. */
  lemma SameLinks(s: State, d: State)
    requires Linked(s) && s.chats.Keys == d.chats.Keys
    requires forall c :: c in s.chats ==>
      d.chats[c].owner == s.chats[c].owner && d.chats[c].shareId == s.chats[c].shareId
    ensures Linked(d)
  {
  }

  /** Dropping rows keeps the links exactly when chat and snapshot go together. */
  lemma DropLinks(s: State, gone: set<string>)
    requires Linked(s)
    ensures Linked(Without(s, gone)) <==>
      forall x :: x in s.chats && s.chats[x].owner.SnapshotOf? ==> (x in gone <==> s.chats[x].owner.chat in gone)
  {
    var d := Without(s, gone);
    if Linked(d) {
      forall x | x in s.chats && s.chats[x].owner.SnapshotOf? ensures x in gone <==> s.chats[x].owner.chat in gone {
        assert PointsBack(s, x, s.chats[x].owner.chat);
        if x !in gone { assert PointsBack(d, x, d.chats[x].owner.chat); }
        var c := s.chats[x].owner.chat;
        if c !in gone {
          assert c in d.chats && d.chats[c].shareId == Some(x);
          assert PointsAt(d, c, d.chats[c].shareId.value);
        }
      }
    }
    if forall x :: x in s.chats && s.chats[x].owner.SnapshotOf? ==> (x in gone <==> s.chats[x].owner.chat in gone) {
      forall x | x in d.chats && d.chats[x].owner.SnapshotOf? ensures PointsBack(d, x, d.chats[x].owner.chat) {
        assert PointsBack(s, x, s.chats[x].owner.chat);
      }
      forall c | c in d.chats && d.chats[c].owner.User? && d.chats[c].shareId.Some?
        ensures PointsAt(d, c, d.chats[c].shareId.value)
      {
        assert PointsAt(s, c, s.chats[c].shareId.value);
      }
    }
  }

  lemma RowsDoNotMatter(s: State, d: State)
    requires s.chats == d.chats
    ensures Linked(s) <==> Linked(d)
  {
  }

  lemma ShareLinks(s: State, id: string, newId: string)
    requires Linked(s) && id in s.chats && s.chats[id].owner.User? && s.chats[id].shareId.None? && newId !in s.chats
    ensures Linked(Shared(s, id, newId))
  {
  }

  lemma UnshareLinks(s: State, id: string, user: string)
    requires Linked(s)
    ensures Linked(Next(s, Unshare(id, user)))
  {
  }

  lemma DeleteLinks(s: State, id: string, user: string, admin: bool)
    requires Linked(s)
    ensures Linked(Next(s, Delete(id, user, admin))) <==> ShareOk(s, Delete(id, user, admin))
  {
    if id in s.chats {
      var gone := (if admin || Owns(s.chats, id, user) then {id} else {}) + Snapshots(s.chats, id);
      RowsDoNotMatter(Without(s, gone), Next(s, Delete(id, user, admin)));
      DropLinks(s, gone);
      GoneTogether(s, id, user, admin, gone);
    }
  }

  /** A delete takes chat and snapshot together exactly under its condition. */
  lemma GoneTogether(s: State, id: string, user: string, admin: bool, gone: set<string>)
    requires Linked(s) && id in s.chats
    requires gone == (if admin || Owns(s.chats, id, user) then {id} else {}) + Snapshots(s.chats, id)
    ensures ShareOk(s, Delete(id, user, admin)) <==>
      forall x :: x in s.chats && s.chats[x].owner.SnapshotOf? ==> (x in gone <==> s.chats[x].owner.chat in gone)
  {
    LinkedMeaning(s, id);
    forall x | x in s.chats && s.chats[x].owner.SnapshotOf? ensures PointsBack(s, x, s.chats[x].owner.chat) { }
    if s.chats[id].owner.User? && s.chats[id].shareId.Some? { assert PointsAt(s, id, s.chats[id].shareId.value); }
  }

  lemma DeleteAllLinks(s: State, user: string)
    requires Linked(s)
    ensures Linked(Next(s, DeleteAll(user)))
  {
  }

  lemma DeleteInFolderLinks(s: State, user: string, folder: string)
    requires Linked(s)
    ensures Linked(Next(s, DeleteInFolder(user, folder))) <==> ShareOk(s, DeleteInFolder(user, folder))
  {
    var gone := set c | c in s.chats && s.chats[c].owner == User(user) && s.chats[c].folder == Some(folder);
    DropLinks(s, gone);
    forall x | x in s.chats && s.chats[x].owner.SnapshotOf? ensures PointsBack(s, x, s.chats[x].owner.chat) { }
    forall c | c in gone && s.chats[c].shareId.Some? ensures PointsAt(s, c, s.chats[c].shareId.value) { }
  }

  lemma ShareStep(s: State, id: string, user: string, newId: string)
    requires Linked(s) && Enabled(s, Share(id, user, newId))
    ensures Linked(Next(s, Share(id, user, newId)))
  {
    if Owns(s.chats, id, user) {
      if s.chats[id].shareId.Some? { SameLinks(s, Next(s, Share(id, user, newId))); } else { ShareLinks(s, id, newId); }
    }
  }

  lemma NewChatLinks(s: State, op: Op)
    requires Linked(s) && Enabled(s, op) && (op.Create? || op.Import? || op.Clone? || op.CloneShared?)
    ensures Linked(Next(s, op))
  {
    if Next(s, op).chats == s.chats { RowsDoNotMatter(s, Next(s, op)); return; }
    var chats := Next(s, op).chats;
    assert chats == s.chats[op.newId := chats[op.newId]];
    NewRowLinks(s, op.newId, chats[op.newId]);
    RowsDoNotMatter(State(chats, s.rows), Next(s, op));
  }

  /** The steps on text, folder, tags and archiving. */
  predicate Rewrites(op: Op) {
    op.Edit? || op.Move? || op.AddTag? || op.ReplaceTags? || op.RemoveTag? || op.ClearTags? || op.ListByTag?
    || op.ToggleArchive? || op.ArchiveAll?
  }

  lemma SharingKept(s: State, op: Op, c: string)
    requires Rewrites(op)
    ensures var d := Next(s, op);
      && (c in d.chats <==> c in s.chats)
      && (c in s.chats ==> d.chats[c].owner == s.chats[c].owner && d.chats[c].shareId == s.chats[c].shareId)
  {
  }

  lemma RewriteLinks(s: State, op: Op, d: State)
    requires Linked(s) && Rewrites(op) && d == Next(s, op)
    ensures Linked(d)
  {
    forall c ensures c in d.chats <==> c in s.chats { SharingKept(s, op, c); }
    forall c | c in s.chats ensures d.chats[c].owner == s.chats[c].owner && d.chats[c].shareId == s.chats[c].shareId {
      SharingKept(s, op, c);
    }
    SameLinks(s, d);
  }

  /** A step keeps the links whole exactly when its condition holds. */
  lemma StepLinksExactly(s: State, op: Op)
    requires Linked(s) && Enabled(s, op)
    ensures Linked(Next(s, op)) <==> ShareOk(s, op)
  {
    match op
    case Create(_, _, _, _) => NewChatLinks(s, op);
    case Import(_, _, _, _, _) => NewChatLinks(s, op);
    case Clone(_, _, _, _) => NewChatLinks(s, op);
    case CloneShared(_, _, _, _, _) => NewChatLinks(s, op);
    case Share(id, user, newId) => ShareStep(s, id, user, newId);
    case Unshare(id, user) => UnshareLinks(s, id, user);
    case Delete(id, user, admin) => DeleteLinks(s, id, user, admin);
    case DeleteAll(user) => DeleteAllLinks(s, user);
    case DeleteInFolder(user, folder) => DeleteInFolderLinks(s, user, folder);
    case _ => RewriteLinks(s, op, Next(s, op));
  }

  // ---------- runs ----------

  ghost predicate Step(s: State, op: Op, d: State) { Enabled(s, op) && ShareOk(s, op) && d == Next(s, op) }

  /** `states` are the tables before and after each step of `run`, starting empty. */
  ghost predicate IsRun(states: seq<State>, run: seq<Op>) {
    && |states| == |run| + 1 && states[0] == State(map[], {})
    && forall n :: 0 <= n < |run| ==> Step(states[n], run[n], states[n + 1])
  }

  lemma StepLinks(s: State, op: Op, d: State)
    requires Linked(s) && Step(s, op, d)
    ensures Linked(d)
  {
    StepLinksExactly(s, op);
  }

  /** Over every such run the links stay whole. */
  lemma {:induction false} RunLinks(states: seq<State>, run: seq<Op>, n: nat)
    requires IsRun(states, run) && n <= |run|
    ensures Linked(states[n])
  {
    if n > 0 {
      RunLinks(states, run, n - 1);
      StepLinks(states[n - 1], run[n - 1], states[n]);
    }
  }

  // ---------- what snapshots show ----------

  predicate Shares(s: State, op: Op, c: string) { op.Share? && op.id == c && Owns(s.chats, c, op.user) }

  /** The op leaves snapshot row `x` as it is: no sharing of its chat that finds anything new, and no edit by an
      administrator or tag replacement that names the row itself and changes it. */
  ghost predicate SpareSnapshot(s: State, op: Op, x: string)
    requires x in s.chats && s.chats[x].owner.SnapshotOf?
  {
    var c := s.chats[x].owner.chat;
    && (Shares(s, op, c) ==> Mirrored(s.chats[x], s.chats[c]) == s.chats[x])
    && (op.Edit? && op.admin && op.id == x ==> op.content == s.chats[x].content)
    && (op.ReplaceTags? && op.id == x ==> Ids(Named(op.names)) == s.chats[x].tags)
  }

  /** A snapshot row that stays keeps what it shows exactly when the step spares it. */
  lemma SnapshotKeptExactly(s: State, op: Op, x: string)
    requires Linked(s) && Enabled(s, op)
    requires x in s.chats && s.chats[x].owner.SnapshotOf? && x in Next(s, op).chats
    ensures Next(s, op).chats[x] == s.chats[x] <==> SpareSnapshot(s, op, x)
  {
    assert PointsBack(s, x, s.chats[x].owner.chat);
  }

  /** An administrator's edit that names the snapshot row changes what the link shows. */
  lemma AdminEditChangesSnapshot()
    ensures var s := State(map["a" := Chat(User("v"), "old", {}, None, false, Some("b")),
                               "b" := Chat(SnapshotOf("a"), "old", {}, None, false, None)], {});
      var op := Edit("b", "w", "new", true);
      && Linked(s) && Enabled(s, op) && ShareOk(s, op)
      && ByShareId(Next(s, op).chats, "b") == Some(s.chats["b"].(content := "new"))
      && Next(s, op).chats["a"] == s.chats["a"]
  {
    var s := State(map["a" := Chat(User("v"), "old", {}, None, false, Some("b")),
                       "b" := Chat(SnapshotOf("a"), "old", {}, None, false, None)], {});
    assert Linked(s);
    assert Next(s, Edit("b", "w", "new", true)).chats["a"].shareId == Some("b");
  }

  /** What a link shows. */
  datatype Image = Image(content: string, tags: set<string>, folder: Option<string>)

  function ImageOf(c: Chat): Image { Image(c.content, c.tags, c.folder) }

  /** What one step makes of the image in snapshot row `x` of chat `c`. */
  function Repainted(s: State, op: Op, x: string, c: string, before: Option<Image>): Option<Image> {
    if Shares(s, op, c) then Some(ImageOf(s.chats[c]))
    else if before.None? then None
    else if op.Edit? && op.admin && op.id == x then Some(before.value.(content := op.content))
    else if op.ReplaceTags? && op.id == x then Some(before.value.(tags := Ids(Named(op.names))))
    else before
  }

  /** The chat as it was when last shared, with the later writes to the snapshot row itself. */
  function LastPainted(states: seq<State>, run: seq<Op>, n: nat, x: string, c: string): Option<Image>
    requires n <= |run| < |states|
  {
    if n == 0 then None
    else Repainted(states[n - 1], run[n - 1], x, c, LastPainted(states, run, n - 1, x, c))
  }

  /** The chat as it was when last shared. */
  function LastShared(states: seq<State>, run: seq<Op>, n: nat, c: string): Option<Image>
    requires n <= |run| < |states|
  {
    if n == 0 then None
    else if Shares(states[n - 1], run[n - 1], c) then Some(ImageOf(states[n - 1].chats[c]))
    else LastShared(states, run, n - 1, c)
  }

  lemma SnapshotStep(s: State, op: Op, d: State, x: string, last: Option<Image>)
    requires Linked(s) && Step(s, op, d) && x in d.chats && d.chats[x].owner.SnapshotOf?
    requires x in s.chats && s.chats[x].owner.SnapshotOf? ==> last == Some(ImageOf(s.chats[x]))
    ensures Repainted(s, op, x, d.chats[x].owner.chat, last) == Some(ImageOf(d.chats[x]))
  {
    if x !in s.chats { NewSnapshotStep(s, op, x, last); }
    else if op.Share? { SnapshotStepShare(s, op, x, last); }
    else if Rewrites(op) { SnapshotStepRewrite(s, op, x, last); }
    else { SnapshotStepOther(s, op, x, last); }
  }

  lemma SnapshotStepShare(s: State, op: Op, x: string, last: Option<Image>)
    requires Linked(s) && Enabled(s, op) && x in Next(s, op).chats && Next(s, op).chats[x].owner.SnapshotOf?
    requires x in s.chats && (s.chats[x].owner.SnapshotOf? ==> last == Some(ImageOf(s.chats[x]))) && op.Share?
    ensures Repainted(s, op, x, Next(s, op).chats[x].owner.chat, last) == Some(ImageOf(Next(s, op).chats[x]))
  {
    if s.chats[x].owner.SnapshotOf? { assert PointsBack(s, x, s.chats[x].owner.chat); }
  }

  lemma SnapshotStepRewrite(s: State, op: Op, x: string, last: Option<Image>)
    requires Linked(s) && Enabled(s, op) && x in Next(s, op).chats && Next(s, op).chats[x].owner.SnapshotOf?
    requires x in s.chats && (s.chats[x].owner.SnapshotOf? ==> last == Some(ImageOf(s.chats[x]))) && Rewrites(op)
    ensures Repainted(s, op, x, Next(s, op).chats[x].owner.chat, last) == Some(ImageOf(Next(s, op).chats[x]))
  {
  }

  lemma SnapshotStepOther(s: State, op: Op, x: string, last: Option<Image>)
    requires Linked(s) && Enabled(s, op) && x in Next(s, op).chats && Next(s, op).chats[x].owner.SnapshotOf?
    requires x in s.chats && (s.chats[x].owner.SnapshotOf? ==> last == Some(ImageOf(s.chats[x])))
    requires !op.Share? && !Rewrites(op)
    ensures Repainted(s, op, x, Next(s, op).chats[x].owner.chat, last) == Some(ImageOf(Next(s, op).chats[x]))
  {
  }

  lemma NewSnapshotStep(s: State, op: Op, x: string, last: Option<Image>)
    requires Enabled(s, op) && x in Next(s, op).chats && Next(s, op).chats[x].owner.SnapshotOf? && x !in s.chats
    ensures Repainted(s, op, x, Next(s, op).chats[x].owner.chat, last) == Some(ImageOf(Next(s, op).chats[x]))
  {
    assert op.Share? && Owns(s.chats, op.id, op.user);
  }

  lemma SnapshotOwner(s: State, op: Op, d: State, x: string)
    requires Step(s, op, d) && x in d.chats && d.chats[x].owner.SnapshotOf?
    ensures x in s.chats ==> s.chats[x].owner == d.chats[x].owner
  {
  }

  /** At any time a snapshot shows its chat as of the last share or re-share, with what an administrator's edit or a tag
      replacement has since written into the snapshot row itself. */
  lemma {:induction false} SnapshotIsLastPainted(states: seq<State>, run: seq<Op>, n: nat, x: string)
    requires IsRun(states, run) && n <= |run| && x in states[n].chats && states[n].chats[x].owner.SnapshotOf?
    ensures LastPainted(states, run, n, x, states[n].chats[x].owner.chat) == Some(ImageOf(states[n].chats[x]))
  {
    if n > 0 {
      var s, op, d := states[n - 1], run[n - 1], states[n];
      var c := d.chats[x].owner.chat;
      RunLinks(states, run, n - 1);
      assert Step(s, op, d);
      SnapshotOwner(s, op, d, x);
      if x in s.chats { SnapshotIsLastPainted(states, run, n - 1, x); }
      SnapshotStep(s, op, d, x, LastPainted(states, run, n - 1, x, c));
    }
  }

  predicate WritesRow(op: Op, x: string) { ((op.Edit? && op.admin) || op.ReplaceTags?) && op.id == x }

  lemma {:induction false} LastPaintedIsShared(states: seq<State>, run: seq<Op>, n: nat, x: string, c: string)
    requires n <= |run| < |states| && forall m :: 0 <= m < n ==> !WritesRow(run[m], x)
    ensures LastPainted(states, run, n, x, c) == LastShared(states, run, n, c)
  {
    if n > 0 { LastPaintedIsShared(states, run, n - 1, x, c); }
  }

  /** While no step names the snapshot row itself, it shows its chat as of the last share or re-share. */
  lemma SnapshotIsLastShared(states: seq<State>, run: seq<Op>, n: nat, x: string)
    requires IsRun(states, run) && n <= |run| && x in states[n].chats && states[n].chats[x].owner.SnapshotOf?
    requires forall m :: 0 <= m < n ==> !WritesRow(run[m], x)
    ensures LastShared(states, run, n, states[n].chats[x].owner.chat) == Some(ImageOf(states[n].chats[x]))
  {
    SnapshotIsLastPainted(states, run, n, x);
    LastPaintedIsShared(states, run, n, x, states[n].chats[x].owner.chat);
  }

  /** A share link resolves exactly while its snapshot exists, and then to the snapshot. */
  lemma ShareLinkResolves(s: State, x: string)
    requires Linked(s)
    ensures ByShareId(s.chats, x) == if x in s.chats && s.chats[x].owner.SnapshotOf? then Some(s.chats[x]) else None
  {
  }
}
