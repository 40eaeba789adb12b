/** When the tag table agrees with the tags on unarchived chats (routers/chats.py, models/chats.py, models/tags.py). */
module ChatTags {
  import opened Lists
  import opened Names
  import opened ChatStore

  ghost predicate Carried(chats: map<string, Chat>, user: string, tag: string) {
    exists c :: c in chats && Carries(chats[c], user, tag)
  }

  ghost predicate AllCarried(chats: map<string, Chat>, user: string, tags: set<string>) {
    forall t :: t in tags ==> Carried(chats, user, t)
  }

  /** Some chat other than `id` carries the tag. */
  ghost predicate Elsewhere(chats: map<string, Chat>, id: string, user: string, tag: string) {
    exists c :: c in chats && c != id && Carries(chats[c], user, tag)
  }

  /** A user has a row for a tag exactly when one of their unarchived chats carries it. */
  ghost predicate Agreement(s: State) {
    forall t, u :: TagRow(t, u) in s.rows <==> Carried(s.chats, u, t)
  }

  ghost predicate NormalTag(t: string) { TagId(t) == t && t != "none" }

  ghost predicate NormalTags(s: State) {
    forall c, t :: c in s.chats && s.chats[c].owner.User? && t in s.chats[c].tags ==> NormalTag(t)
  }

  ghost predicate Inv(s: State) { Agreement(s) && NormalTags(s) }

  lemma CountMeaning(chats: map<string, Chat>, user: string, tag: string)
    ensures |Carriers(chats, user, tag)| == 0 <==> !Carried(chats, user, tag)
  {
    if c :| c in chats && Carries(chats[c], user, tag) { assert c in Carriers(chats, user, tag); }
    if Carriers(chats, user, tag) != {} { var c :| c in Carriers(chats, user, tag); }
  }

  lemma SplitCarried(chats: map<string, Chat>, id: string, user: string, tag: string)
    ensures Carried(chats, user, tag)
      <==> Elsewhere(chats, id, user, tag) || (id in chats && Carries(chats[id], user, tag))
  {
  }

  /** Rewriting one row leaves what the others carry. */
  lemma RowChanged(chats: map<string, Chat>, id: string, c: Chat, user: string, tag: string)
    ensures Carried(chats[id := c], user, tag) <==> Elsewhere(chats, id, user, tag) || Carries(c, user, tag)
  {
    var d := chats[id := c];
    SplitCarried(d, id, user, tag);
    if x :| x in chats && x != id && Carries(chats[x], user, tag) { assert x in d && d[x] == chats[x]; }
  }

  /** Dropping rows of uncarried tags restores the agreement when every stale row is among the purged tags. */
  lemma PurgeRestores(s: State, user: string, tags: set<string>)
    requires forall t, u :: Carried(s.chats, u, t) ==> TagRow(t, u) in s.rows
    requires forall t, u :: TagRow(t, u) in s.rows && !Carried(s.chats, u, t) ==> u == user && t in Ids(tags)
    ensures Agreement(Purged(s, user, tags, 0))
  {
    forall t, u ensures TagRow(t, u) in Purged(s, user, tags, 0).rows <==> Carried(s.chats, u, t) {
      CountMeaning(s.chats, user, t);
    }
  }

  lemma NormalIds(tags: set<string>)
    requires forall t :: t in tags ==> NormalTag(t)
    ensures Ids(tags) == tags
  {
  }

  /** Taking tags off a chat and purging them. */
  lemma TagsTaken(s: State, id: string, user: string, tags: set<string>, purged: set<string>)
    requires Inv(s) && Owns(s.chats, id, user) && tags <= s.chats[id].tags
    requires s.chats[id].tags - tags <= Ids(purged)
    ensures Inv(Purged(WithTags(s, id, tags), user, purged, 0))
  {
    var t := WithTags(s, id, tags);
    forall x, u ensures Carried(t.chats, u, x) ==> TagRow(x, u) in s.rows {
      RowChanged(s.chats, id, t.chats[id], u, x);
      SplitCarried(s.chats, id, u, x);
    }
    forall x, u | TagRow(x, u) in s.rows && !Carried(t.chats, u, x) ensures u == user && x in Ids(purged) {
      RowChanged(s.chats, id, t.chats[id], u, x);
      SplitCarried(s.chats, id, u, x);
    }
    PurgeRestores(t, user, purged);
  }

  lemma RemoveKeeps(s: State, id: string, user: string, name: string)
    requires Inv(s)
    ensures Inv(Next(s, RemoveTag(id, user, name)))
  {
    if Owns(s.chats, id, user) {
      assert TagId(name) in Ids({name});
      TagsTaken(s, id, user, s.chats[id].tags - {TagId(name)}, {name});
    }
  }

  lemma ClearKeeps(s: State, id: string, user: string)
    requires Inv(s)
    ensures Inv(Next(s, ClearTags(id, user)))
  {
    if Owns(s.chats, id, user) {
      OwnTagsNormal(s, id, user);
      TagsTaken(s, id, user, {}, s.chats[id].tags);
    }
  }

  lemma OwnTagsNormal(s: State, id: string, user: string)
    requires NormalTags(s) && Owns(s.chats, id, user)
    ensures Ids(s.chats[id].tags) == s.chats[id].tags
  {
    NormalIds(s.chats[id].tags);
  }

  /** Putting tags on a chat together with their rows: an archived chat's tags must be carried by others. */
  lemma TagsPut(s: State, id: string, user: string, tags: set<string>, rows: set<TagRow>, added: set<string>)
    requires Inv(s) && Owns(s.chats, id, user) && s.chats[id].tags <= tags == s.chats[id].tags + added
    requires forall t :: t in added ==> NormalTag(t)
    requires forall t, u :: TagRow(t, u) in rows <==> u == user && t in added
    ensures Inv(WithTags(s, id, tags).(rows := s.rows + rows))
      <==> (s.chats[id].archived ==> AllCarried(s.chats, user, added))
  {
    var d := WithTags(s, id, tags).(rows := s.rows + rows);
    forall t, u ensures Carried(d.chats, u, t) <==>
      (Carried(s.chats, u, t) || (u == user && t in added && !s.chats[id].archived))
    {
      RowChanged(s.chats, id, d.chats[id], u, t);
      SplitCarried(s.chats, id, u, t);
    }
    if s.chats[id].archived {
      if t :| t in added && !Carried(s.chats, user, t) {
        assert TagRow(t, user) in d.rows && !Carried(d.chats, user, t);
      }
    }
  }

  lemma AddKeeps(s: State, id: string, user: string, name: string)
    requires Inv(s)
    ensures Inv(Next(s, AddTag(id, user, name))) <==> StepOk(s, AddTag(id, user, name))
  {
    var t := TagId(name);
    if Owns(s.chats, id, user) && t != "none" && t !in s.chats[id].tags {
      DisplayRoundTrip(name);
      TagsPut(s, id, user, s.chats[id].tags + {t}, {TagRow(t, user)}, {t});
    }
  }

  // ---------- which steps keep the agreement ----------

  /** No row that a delete's count of one would drop. */
  ghost predicate NoneCarriedOnce(chats: map<string, Chat>, user: string, tags: set<string>) {
    forall t :: t in Ids(tags) ==> |Carriers(chats, user, t)| != 1
  }

  /** Giving the chat the tags `kept` changes nothing in what its owner carries. */
  ghost predicate OwnerKeeps(chats: map<string, Chat>, id: string, kept: set<string>) {
    id in chats && chats[id].owner.User? && !chats[id].archived ==>
      forall t :: (t in kept) != (t in chats[id].tags) ==> Elsewhere(chats, id, chats[id].owner.name, t)
  }

  /** What must hold before a step for the tag table to agree afterwards. */
  ghost predicate StepOk(s: State, op: Op) {
    match op
    case Import(_, _, _, _, tags) => forall t :: t in tags ==> NormalTag(t)
    case Clone(id, user, _, _) =>
      Owns(s.chats, id, user) && s.chats[id].archived ==> AllCarried(s.chats, user, s.chats[id].tags)
    case AddTag(id, user, name) =>
      Owns(s.chats, id, user) && TagId(name) != "none" && TagId(name) !in s.chats[id].tags && s.chats[id].archived
      ==> Carried(s.chats, user, TagId(name))
    case CloneShared(id, user, _, _, admin) =>
      var source := Shown(s.chats, id, admin);
      source.Some? ==> AllCarried(s.chats, user, source.value.tags)
    case ReplaceTags(id, user, names) =>
      var tags := Ids(Named(names));
      if Owns(s.chats, id, user) then s.chats[id].archived ==> AllCarried(s.chats, user, tags)
      else id in s.chats ==> AllCarried(s.chats, user, tags) && OwnerKeeps(s.chats, id, tags)
    case ArchiveAll(user, archived) =>
      if archived then forall t :: !Carried(s.chats, user, t)
      else forall c, t :: Owns(s.chats, c, user) && t in s.chats[c].tags ==> Carried(s.chats, user, t)
    case Delete(id, user, admin) =>
      if Owns(s.chats, id, user) then s.chats[id].archived ==> NoneCarriedOnce(s.chats, user, s.chats[id].tags)
      else id in s.chats ==>
        NoneCarriedOnce(s.chats, user, s.chats[id].tags) && (admin ==> OwnerKeeps(s.chats, id, {}))
    case DeleteAll(user) => forall t :: !Carried(s.chats, user, t)
    case DeleteInFolder(user, folder) =>
      forall t :: Carried(s.chats, user, t) ==>
        exists c :: c in s.chats && Carries(s.chats[c], user, t) && s.chats[c].folder != Some(folder)
    case _ => true
  }

  lemma NotNone(name: string)
    requires !IsNone(name)
    ensures NormalTag(TagId(name))
  {
  }

  lemma NamedIdsNormal(names: set<string>)
    ensures forall t :: t in Ids(Named(names)) ==> NormalTag(t)
  {
    forall t | t in Ids(Named(names)) ensures NormalTag(t) { var n :| n in Named(names) && TagId(n) == t; NotNone(n); }
  }

  lemma ReplaceKeeps(s: State, id: string, user: string, names: set<string>)
    requires Inv(s)
    ensures Inv(Next(s, ReplaceTags(id, user, names))) <==> StepOk(s, ReplaceTags(id, user, names))
  {
    if Owns(s.chats, id, user) { OwnReplaceKeeps(s, id, user, names); }
    else if id in s.chats { ForeignReplaceKeeps(s, id, user, names); }
  }

  lemma OwnReplaceKeeps(s: State, id: string, user: string, names: set<string>)
    requires Inv(s) && Owns(s.chats, id, user)
    ensures Inv(Next(s, ReplaceTags(id, user, names))) <==> StepOk(s, ReplaceTags(id, user, names))
  {
    OwnTagsNormal(s, id, user);
    TagsTaken(s, id, user, {}, s.chats[id].tags);
    var t := Purged(WithTags(s, id, {}), user, s.chats[id].tags, 0);
    var added := Ids(Named(names));
    NamedIdsNormal(names);
    assert t.chats[id].tags + added == added;
    TagsPut(t, id, user, added, Rows(user, Named(names)), added);
    forall x ensures s.chats[id].archived ==> (Carried(t.chats, user, x) <==> Carried(s.chats, user, x)) {
      RowChanged(s.chats, id, t.chats[id], user, x);
      SplitCarried(s.chats, id, user, x);
    }
  }

  /** Replacing the tags of someone else's chat: the caller's rows are inserted, the owner's are left alone. */
  lemma ForeignReplaceKeeps(s: State, id: string, user: string, names: set<string>)
    requires Inv(s) && id in s.chats && !Owns(s.chats, id, user)
    ensures Inv(Next(s, ReplaceTags(id, user, names))) <==> StepOk(s, ReplaceTags(id, user, names))
  {
    var added, owner := Ids(Named(names)), s.chats[id].owner;
    var d := Next(s, ReplaceTags(id, user, names));
    NamedIdsNormal(names);
    PurgeForeign(s, id, user);
    assert d.chats == s.chats[id := s.chats[id].(tags := added)];
    forall u, t ensures Carried(d.chats, u, t) <==>
      if owner == User(u) && !s.chats[id].archived then Elsewhere(s.chats, id, u, t) || t in added
      else Carried(s.chats, u, t)
    {
      RowChanged(s.chats, id, d.chats[id], u, t);
      SplitCarried(s.chats, id, u, t);
    }
    ForeignReplaceExactly(s, d, id, user, added);
  }

  /** Nothing to purge: the caller carries what the caller's rows say. */
  lemma PurgeForeign(s: State, id: string, user: string)
    requires Inv(s) && id in s.chats && !Owns(s.chats, id, user)
    ensures Purged(WithTags(s, id, {}), user, s.chats[id].tags, 0).rows == s.rows
  {
    var t := WithTags(s, id, {});
    forall x | TagRow(x, user) in s.rows ensures |Carriers(t.chats, user, x)| != 0 {
      RowChanged(s.chats, id, t.chats[id], user, x);
      SplitCarried(s.chats, id, user, x);
      CountMeaning(t.chats, user, x);
    }
  }

  lemma ForeignReplaceExactly(s: State, d: State, id: string, user: string, added: set<string>)
    requires Inv(s) && id in s.chats && s.chats[id].owner != User(user) && NormalTags(d)
    requires forall t, u :: TagRow(t, u) in d.rows <==> TagRow(t, u) in s.rows || (u == user && t in added)
    requires forall u, t :: Carried(d.chats, u, t) <==>
      if s.chats[id].owner == User(u) && !s.chats[id].archived then Elsewhere(s.chats, id, u, t) || t in added
      else Carried(s.chats, u, t)
    ensures Inv(d) <==> AllCarried(s.chats, user, added) && OwnerKeeps(s.chats, id, added)
  {
    forall u, t ensures Carried(s.chats, u, t) <==> Elsewhere(s.chats, id, u, t) || Carries(s.chats[id], u, t) {
      SplitCarried(s.chats, id, u, t);
    }
    if t :| t in added && !Carried(s.chats, user, t) { assert TagRow(t, user) in d.rows && !Carried(d.chats, user, t); }
    if !OwnerKeeps(s.chats, id, added) {
      var u := s.chats[id].owner.name;
      var t :| (t in added) != (t in s.chats[id].tags) && !Elsewhere(s.chats, id, u, t);
      assert TagRow(t, u) in d.rows <==> t in s.chats[id].tags;
      assert Carried(d.chats, u, t) <==> t in added;
    }
  }

  lemma ToggledCarried(s: State, id: string, user: string, u: string, t: string)
    requires Owns(s.chats, id, user)
    ensures var c := s.chats[id].(archived := !s.chats[id].archived);
      Carried(s.chats[id := c], u, t) <==> Elsewhere(s.chats, id, u, t) || Carries(c, u, t)
    ensures Carried(s.chats, u, t) <==> Elsewhere(s.chats, id, u, t) || Carries(s.chats[id], u, t)
  {
    RowChanged(s.chats, id, s.chats[id].(archived := !s.chats[id].archived), u, t);
    SplitCarried(s.chats, id, u, t);
  }

  lemma ArchiveKeeps(s: State, id: string, user: string)
    requires Inv(s) && Owns(s.chats, id, user) && !s.chats[id].archived
    ensures Inv(Toggled(s, id, user))
  {
    var c := s.chats[id].(archived := true);
    var t := s.(chats := s.chats[id := c]);
    forall x, u ensures Carried(t.chats, u, x) ==> TagRow(x, u) in s.rows { ToggledCarried(s, id, user, u, x); }
    OwnTagsNormal(s, id, user);
    forall x, u | TagRow(x, u) in s.rows && !Carried(t.chats, u, x) ensures u == user && x in Ids(c.tags) {
      ToggledCarried(s, id, user, u, x);
    }
    PurgeRestores(t, user, c.tags);
  }

  lemma UnarchiveKeeps(s: State, id: string, user: string)
    requires Inv(s) && Owns(s.chats, id, user) && s.chats[id].archived
    ensures Inv(Toggled(s, id, user))
  {
    var d := Toggled(s, id, user);
    RestoredRows(user, s.chats[id].tags);
    forall x, u ensures TagRow(x, u) in d.rows <==> Carried(d.chats, u, x) { ToggledCarried(s, id, user, u, x); }
  }

  lemma ToggleKeeps(s: State, id: string, user: string)
    requires Inv(s)
    ensures Inv(Next(s, ToggleArchive(id, user)))
  {
    if Owns(s.chats, id, user) {
      if s.chats[id].archived { UnarchiveKeeps(s, id, user); } else { ArchiveKeeps(s, id, user); }
    }
  }

  lemma RestoredRows(user: string, tags: set<string>)
    requires forall t :: t in tags ==> NormalTag(t)
    ensures forall x, u :: TagRow(x, u) in Rows(user, tags) <==> u == user && x in tags
  {
  }

  /** When the users' rows keep owner, tags and archive flag, nothing the tag table depends on has changed. */
  lemma SameUserRows(s: State, chats: map<string, Chat>)
    requires Inv(s)
    requires forall c :: c in s.chats && s.chats[c].owner.User? ==>
      && c in chats && chats[c].owner == s.chats[c].owner
      && chats[c].tags == s.chats[c].tags && chats[c].archived == s.chats[c].archived
    requires forall c :: c in chats && chats[c].owner.User? ==> c in s.chats && s.chats[c].owner.User?
    ensures Inv(State(chats, s.rows))
  {
  }

  /** A new chat of a user. */
  lemma NewChat(s: State, newId: string, c: Chat, u: string, t: string)
    requires newId !in s.chats
    ensures Carried(s.chats[newId := c], u, t) <==> Carried(s.chats, u, t) || Carries(c, u, t)
  {
    RowChanged(s.chats, newId, c, u, t);
    SplitCarried(s.chats, newId, u, t);
  }

  lemma ImportKeeps(s: State, newId: string, user: string, content: string, folder: Option<string>, tags: set<string>)
    requires Inv(s) && newId !in s.chats
    ensures var op := Import(newId, user, content, folder, tags); Inv(Next(s, op)) <==> StepOk(s, op)
  {
    var d := Next(s, Import(newId, user, content, folder, tags));
    forall u, t ensures Carried(d.chats, u, t) <==> Carried(s.chats, u, t) || (u == user && t in tags) {
      NewChat(s, newId, d.chats[newId], u, t);
    }
    if forall t :: t in tags ==> NormalTag(t) {
      assert (set t | t in tags && TagId(t) != "none") == tags by {
        forall t | t in tags ensures TagId(t) != "none" { assert NormalTag(t); }
      }
      NormalIds(tags);
      RestoredRows(user, tags);
    } else {
      var t :| t in tags && !NormalTag(t);
      assert t in d.chats[newId].tags && d.chats[newId].owner.User?;
    }
  }

  lemma CloneKeeps(s: State, id: string, user: string, newId: string, content: string)
    requires Inv(s) && newId !in s.chats
    ensures Inv(Next(s, Clone(id, user, newId, content))) <==> StepOk(s, Clone(id, user, newId, content))
  {
    if Owns(s.chats, id, user) {
      CopyKeeps(s, newId, CopyFor(s.chats[id], user, content), user);
      assert !s.chats[id].archived ==> forall t :: t in s.chats[id].tags ==> Carries(s.chats[id], user, t);
    }
  }

  lemma CloneSharedKeeps(s: State, op: Op)
    requires Inv(s) && Enabled(s, op) && op.CloneShared?
    ensures Inv(Next(s, op)) <==> StepOk(s, op)
  {
    var source := Shown(s.chats, op.id, op.admin);
    if source.Some? { CopyKeeps(s, op.newId, CopyFor(source.value, op.user, op.content), op.user); }
  }

  /** Cloning a shared chat with a tag the cloner does not have leaves that tag without a row. */
  lemma SharedCloneCanBreak()
    ensures var s := State(map["a" := Chat(User("v"), "", {"x"}, None, false, Some("b")),
                               "b" := Chat(SnapshotOf("a"), "", {"x"}, None, false, None)], {TagRow("x", "v")});
      Inv(s) && !Inv(Next(s, CloneShared("b", "u", "c", "", false)))
  {
    var s := State(map["a" := Chat(User("v"), "", {"x"}, None, false, Some("b")),
                       "b" := Chat(SnapshotOf("a"), "", {"x"}, None, false, None)], {TagRow("x", "v")});
    assert Carries(s.chats["a"], "v", "x");
    assert TagId("x") == "x";
    assert Shown(s.chats, "b", false) == Some(s.chats["b"]);
    CopyKeeps(s, "c", CopyFor(s.chats["b"], "u", ""), "u");
  }

  /** A new chat whose tags get no rows keeps the agreement exactly when its user carries them all already. */
  lemma CopyKeeps(s: State, newId: string, c: Chat, user: string)
    requires Inv(s) && newId !in s.chats && c.owner == User(user) && !c.archived
    ensures Inv(s.(chats := s.chats[newId := c])) <==> AllCarried(s.chats, user, c.tags)
  {
    var d := s.(chats := s.chats[newId := c]);
    forall u, t ensures Carried(d.chats, u, t) <==> Carried(s.chats, u, t) || (u == user && t in c.tags) {
      NewChat(s, newId, c, u, t);
    }
    if t :| t in c.tags && !Carried(s.chats, user, t) {
      assert TagRow(t, user) !in d.rows && Carried(d.chats, user, t);
    }
    forall t | t in c.tags && Carried(s.chats, user, t) ensures NormalTag(t) {
      var x :| x in s.chats && Carries(s.chats[x], user, t);
    }
  }

  lemma ArchiveAllKeeps(s: State, user: string, archived: bool)
    requires Inv(s)
    ensures Inv(Next(s, ArchiveAll(user, archived))) <==> StepOk(s, ArchiveAll(user, archived))
  {
    var d := SetArchived(s, user, archived);
    forall u, t ensures Carried(d.chats, u, t) <==>
      (if u != user then Carried(s.chats, u, t)
       else !archived && exists c :: Owns(s.chats, c, user) && t in s.chats[c].tags)
    {
      if c :| c in s.chats && Carries(s.chats[c], u, t) && u != user {
        assert c in d.chats && Carries(d.chats[c], u, t);
      }
      if c :| Owns(s.chats, c, user) && t in s.chats[c].tags && u == user && !archived {
        assert c in d.chats && Carries(d.chats[c], u, t);
      }
    }
    if !archived {
      if c, t :| Owns(s.chats, c, user) && t in s.chats[c].tags && !Carried(s.chats, user, t) {
        assert Carried(d.chats, user, t) && TagRow(t, user) !in d.rows;
      }
    } else if t :| Carried(s.chats, user, t) {
      assert TagRow(t, user) in d.rows && !Carried(d.chats, user, t);
    }
  }

  // ---------- deletions ----------

  lemma CountOne(chats: map<string, Chat>, id: string, user: string, t: string)
    requires id in chats && Carries(chats[id], user, t)
    ensures |Carriers(chats, user, t)| == 1 <==> !Elsewhere(chats, id, user, t)
  {
    var all := Carriers(chats, user, t);
    assert id in all && |all - {id}| == |all| - 1;
    if c :| c in chats && c != id && Carries(chats[c], user, t) { assert c in all - {id}; }
    if all - {id} != {} { var c :| c in all - {id}; }
  }

  ghost predicate CarriedOutside(chats: map<string, Chat>, gone: set<string>, u: string, t: string) {
    exists c :: c in chats && c !in gone && Carries(chats[c], u, t)
  }

  lemma CarriedWithout(chats: map<string, Chat>, gone: set<string>, u: string, t: string)
    ensures Carried(chats - gone, u, t) <==> CarriedOutside(chats, gone, u, t)
  {
    if c :| c in chats && c !in gone && Carries(chats[c], u, t) {
      assert c in chats - gone && (chats - gone)[c] == chats[c];
    }
  }

  lemma DeleteKeeps(s: State, id: string, user: string, admin: bool)
    requires Inv(s)
    ensures Inv(Next(s, Delete(id, user, admin))) <==> StepOk(s, Delete(id, user, admin))
  {
    if Owns(s.chats, id, user) {
      OwnTagsNormal(s, id, user);
      if s.chats[id].archived {
        ArchivedDeleteKeeps(s, id, user, admin);
      } else {
        UnarchivedDeleteKeeps(s, id, user, admin);
      }
    } else if id in s.chats {
      ForeignDeleteKeeps(s, id, user, admin);
    }
  }

  /** What is carried once a chat is gone. */
  lemma CarriedAfterDelete(s: State, id: string, user: string, admin: bool, u: string, t: string)
    requires id in s.chats
    ensures Carried(Next(s, Delete(id, user, admin)).chats, u, t)
      <==> Elsewhere(s.chats, id, u, t) || (!admin && !Owns(s.chats, id, user) && Carries(s.chats[id], u, t))
    ensures Carried(s.chats, u, t) <==> Elsewhere(s.chats, id, u, t) || Carries(s.chats[id], u, t)
  {
    CarriedWithout(s.chats, (if admin || Owns(s.chats, id, user) then {id} else {}) + Snapshots(s.chats, id), u, t);
    SplitCarried(s.chats, id, u, t);
  }

  lemma UnarchivedDeleteKeeps(s: State, id: string, user: string, admin: bool)
    requires Inv(s) && Owns(s.chats, id, user) && !s.chats[id].archived && Ids(s.chats[id].tags) == s.chats[id].tags
    ensures Inv(Next(s, Delete(id, user, admin)))
  {
    var d := Next(s, Delete(id, user, admin));
    forall t, u ensures TagRow(t, u) in d.rows <==> Carried(d.chats, u, t) {
      CarriedAfterDelete(s, id, user, admin, u, t);
      if t in s.chats[id].tags { CountOne(s.chats, id, user, t); }
    }
  }

  lemma ArchivedDeleteKeeps(s: State, id: string, user: string, admin: bool)
    requires Inv(s) && Owns(s.chats, id, user) && s.chats[id].archived
    ensures Inv(Next(s, Delete(id, user, admin))) <==> NoneCarriedOnce(s.chats, user, s.chats[id].tags)
  {
    var d := Next(s, Delete(id, user, admin));
    forall t, u ensures Carried(d.chats, u, t) <==> Carried(s.chats, u, t) {
      CarriedAfterDelete(s, id, user, admin, u, t);
    }
    DroppedRows(s, d, user, s.chats[id].tags);
  }

  /** When the caller still carries what they did, the purge must not have found a row to drop. */
  lemma DroppedRows(s: State, d: State, user: string, tags: set<string>)
    requires Inv(s) && d.rows == Purged(s, user, tags, 1).rows && NormalTags(d)
    requires forall t :: Carried(d.chats, user, t) <==> Carried(s.chats, user, t)
    ensures (forall t :: TagRow(t, user) in d.rows <==> Carried(d.chats, user, t))
      <==> NoneCarriedOnce(s.chats, user, tags)
  {
    if t :| t in Ids(tags) && |Carriers(s.chats, user, t)| == 1 {
      CountMeaning(s.chats, user, t);
      assert TagRow(t, user) !in d.rows && Carried(d.chats, user, t);
    }
  }

  /** Deleting someone else's chat: the caller's rows are purged; an administrator takes the chat from its owner. */
  lemma ForeignDeleteKeeps(s: State, id: string, user: string, admin: bool)
    requires Inv(s) && id in s.chats && !Owns(s.chats, id, user)
    ensures Inv(Next(s, Delete(id, user, admin))) <==>
      NoneCarriedOnce(s.chats, user, s.chats[id].tags) && (admin ==> OwnerKeeps(s.chats, id, {}))
  {
    var d := Next(s, Delete(id, user, admin));
    forall t, u ensures
      && (Carried(d.chats, u, t) <==> Elsewhere(s.chats, id, u, t) || (!admin && Carries(s.chats[id], u, t)))
      && (Carried(s.chats, u, t) <==> Elsewhere(s.chats, id, u, t) || Carries(s.chats[id], u, t))
    {
      CarriedAfterDelete(s, id, user, admin, u, t);
    }
    DroppedRows(s, d, user, s.chats[id].tags);
    assert forall t, u :: u != user ==> (TagRow(t, u) in d.rows <==> Carried(s.chats, u, t));
    if admin && !OwnerKeeps(s.chats, id, {}) {
      var u := s.chats[id].owner.name;
      var t :| t in s.chats[id].tags && !Elsewhere(s.chats, id, u, t);
      assert TagRow(t, u) in d.rows && !Carried(d.chats, u, t);
    }
  }

  /** Deleting someone else's chat leaves that chat in place but drops the caller's own row of a tag they carry once. */
  lemma ForeignDeleteCanBreak()
    ensures var tagged := (u: string) => Chat(User(u), "", {"x"}, None, false, None);
      var s := State(map["a" := tagged("u"), "b" := tagged("v")], {TagRow("x", "u"), TagRow("x", "v")});
      Inv(s) && !Inv(Next(s, Delete("b", "u", false)))
  {
    var tagged := (u: string) => Chat(User(u), "", {"x"}, None, false, None);
    var s := State(map["a" := tagged("u"), "b" := tagged("v")], {TagRow("x", "u"), TagRow("x", "v")});
    assert Carries(s.chats["a"], "u", "x") && Carries(s.chats["b"], "v", "x");
    assert TagId("x") == "x";
    assert Carriers(s.chats, "u", "x") == {"a"};
    assert "x" in Ids({"x"});
    ForeignDeleteKeeps(s, "b", "u", false);
  }

  /** Deleting chats and leaving the tag table alone. */
  lemma DropKeeps(s: State, gone: set<string>, user: string)
    requires Inv(s)
    requires forall c :: c in gone && c in s.chats && s.chats[c].owner.User? ==> s.chats[c].owner == User(user)
    ensures Inv(Without(s, gone))
      <==> forall t :: Carried(s.chats, user, t) ==> CarriedOutside(s.chats, gone, user, t)
  {
    var d := Without(s, gone);
    forall t, u ensures Carried(d.chats, u, t) <==> CarriedOutside(s.chats, gone, u, t) {
      CarriedWithout(s.chats, gone, u, t);
    }
    if t :| Carried(s.chats, user, t) && !Carried(d.chats, user, t) { assert TagRow(t, user) in d.rows; }
  }

  lemma DeleteAllKeeps(s: State, user: string)
    requires Inv(s)
    ensures Inv(Next(s, DeleteAll(user))) <==> StepOk(s, DeleteAll(user))
  {
    DropKeeps(s, OwnedBy(s.chats, user) + SnapshotsOfUser(s.chats, user), user);
  }

  lemma DeleteInFolderKeeps(s: State, user: string, folder: string)
    requires Inv(s)
    ensures Inv(Next(s, DeleteInFolder(user, folder))) <==> StepOk(s, DeleteInFolder(user, folder))
  {
    var gone := set c | c in s.chats && s.chats[c].owner == User(user) && s.chats[c].folder == Some(folder);
    DropKeeps(s, gone, user);
    forall t, c | c in s.chats && Carries(s.chats[c], user, t)
      ensures c in gone <==> s.chats[c].folder == Some(folder)
    {
    }
  }

  lemma QuietKeeps(s: State, op: Op)
    requires Inv(s) && Enabled(s, op)
    requires op.Create? || op.Edit? || op.Move? || op.ListByTag? || op.Share? || op.Unshare?
    ensures Inv(Next(s, op))
  {
    if op.Create? {
      CopyKeeps(s, op.newId, Next(s, op).chats[op.newId], op.user);
    } else if op.ListByTag? {
      ListKeeps(s, op.user, op.name);
    } else {
      SameUserRows(s, Next(s, op).chats);
    }
  }

  /** A tag that no chat of the user has, archived or not, has no row to lose. */
  lemma ListKeeps(s: State, user: string, name: string)
    requires Inv(s)
    ensures Next(s, ListByTag(user, name)) == s
  {
    if Tagged(s.chats, user, TagId(name)) == {} {
      var tag := TagId(name);
      assert forall c :: c in s.chats && Carries(s.chats[c], user, tag) ==> c in Tagged(s.chats, user, tag);
      assert s.rows - {TagRow(TagId(name), user)} == s.rows;
    }
  }

  /** A step keeps the tag table in agreement exactly when its condition holds. */
  lemma StepExactly(s: State, op: Op)
    requires Inv(s) && Enabled(s, op)
    ensures Inv(Next(s, op)) <==> StepOk(s, op)
  {
    match op
    case Import(newId, user, content, folder, tags) => ImportKeeps(s, newId, user, content, folder, tags);
    case Clone(id, user, newId, content) => CloneKeeps(s, id, user, newId, content);
    case CloneShared(_, _, _, _, _) => CloneSharedKeeps(s, op);
    case AddTag(id, user, name) => AddKeeps(s, id, user, name);
    case ReplaceTags(id, user, names) => ReplaceKeeps(s, id, user, names);
    case RemoveTag(id, user, name) => RemoveKeeps(s, id, user, name);
    case ClearTags(id, user) => ClearKeeps(s, id, user);
    case ToggleArchive(id, user) => ToggleKeeps(s, id, user);
    case ArchiveAll(user, archived) => ArchiveAllKeeps(s, user, archived);
    case Delete(id, user, admin) => DeleteKeeps(s, id, user, admin);
    case DeleteAll(user) => DeleteAllKeeps(s, user);
    case DeleteInFolder(user, folder) => DeleteInFolderKeeps(s, user, folder);
    case _ => QuietKeeps(s, op);
  }

  // ---------- runs ----------

  ghost predicate GoodAt(s: State, run: seq<Op>, n: nat) requires n < |run| {
    Enabled(After(s, run, n), run[n]) && StepOk(After(s, run, n), run[n])
  }

  ghost predicate GoodRun(s: State, run: seq<Op>) { forall n :: 0 <= n < |run| ==> GoodAt(s, run, n) }

  /** Over every such run a user has a tag row exactly when an unarchived chat of theirs carries the tag. */
  lemma {:induction false} RunAgrees(s: State, run: seq<Op>, n: nat)
    requires Inv(s) && GoodRun(s, run) && n <= |run|
    ensures Inv(After(s, run, n))
  {
    if n > 0 {
      RunAgrees(s, run, n - 1);
      assert GoodAt(s, run, n - 1);
      StepExactly(After(s, run, n - 1), run[n - 1]);
    }
  }

  /** The steps of ordinary use: tagging and cloning unarchived chats, replacing tags of and deleting one's own,
      importing normal tags, removing and clearing tags, toggling one chat, creating, editing, moving, sharing; no bulk
      archive, no bulk delete and no copy of someone's tags. */
  ghost predicate Ordinary(s: State, op: Op) {
    match op
    case AddTag(id, _, _) => id in s.chats ==> !s.chats[id].archived
    case ReplaceTags(id, user, _) => id in s.chats ==> Owns(s.chats, id, user) && !s.chats[id].archived
    case Delete(id, user, _) => id in s.chats ==> Owns(s.chats, id, user) && !s.chats[id].archived
    case Clone(id, _, _, _) => id in s.chats ==> !s.chats[id].archived
    case CloneShared(id, _, _, _, admin) =>
      Shown(s.chats, id, admin).Some? ==> Shown(s.chats, id, admin).value.tags == {}
    case Import(_, _, _, _, tags) => forall t :: t in tags ==> NormalTag(t)
    case ArchiveAll(_, _) => false
    case DeleteAll(_) => false
    case DeleteInFolder(_, _) => false
    case _ => true
  }

  lemma OrdinaryStepsAreOk(s: State, op: Op)
    requires Ordinary(s, op)
    ensures StepOk(s, op)
  {
  }

  ghost predicate OrdinaryAt(s: State, run: seq<Op>, n: nat) requires n < |run| {
    Enabled(After(s, run, n), run[n]) && Ordinary(After(s, run, n), run[n])
  }

  /** Over every run of ordinary steps from empty tables, a user has a tag row exactly when an unarchived chat of
      theirs carries the tag. */
  lemma OrdinaryRunAgrees(run: seq<Op>)
    requires forall n :: 0 <= n < |run| ==> OrdinaryAt(State(map[], {}), run, n)
    ensures Agreement(After(State(map[], {}), run, |run|))
  {
    var empty := State(map[], {});
    forall n | 0 <= n < |run| ensures GoodAt(empty, run, n) {
      assert OrdinaryAt(empty, run, n);
      OrdinaryStepsAreOk(After(empty, run, n), run[n]);
    }
    RunAgrees(empty, run, |run|);
  }
}
