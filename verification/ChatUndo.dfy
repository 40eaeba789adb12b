/** What chat operations undo and whom they leave alone (models/chats.py, routers/chats.py). */
module ChatUndo {
  import opened Lists
  import opened Names
  import opened ChatStore
  import opened ChatTags
  import opened ChatShares

  /** In agreement the chats determine the tag table. */
  lemma RowsDetermined(s: State, d: State)
    requires ChatTags.Inv(s) && ChatTags.Inv(d) && s.chats == d.chats
    ensures s == d
  {
    forall r ensures r in s.rows <==> r in d.rows { assert r == TagRow(r.id, r.user); }
  }

  /** Archiving a chat and taking it back leaves chats and tag table as they were, and the other way round. */
  lemma ToggleTwice(s: State, id: string, user: string)
    requires ChatTags.Inv(s)
    ensures Owns(s.chats, id, user) ==> Next(s, ToggleArchive(id, user)).chats[id].archived == !s.chats[id].archived
    ensures Next(Next(s, ToggleArchive(id, user)), ToggleArchive(id, user)) == s
  {
    var a := Next(s, ToggleArchive(id, user));
    ToggleKeeps(s, id, user);
    ToggleKeeps(a, id, user);
    RowsDetermined(s, Next(a, ToggleArchive(id, user)));
  }

  /** A new tag that is added and removed again leaves no trace. */
  lemma AddThenRemove(s: State, id: string, user: string, name: string)
    requires ChatTags.Inv(s) && Owns(s.chats, id, user) && !s.chats[id].archived && TagId(name) !in s.chats[id].tags
    requires TagId(name) != "none"
    ensures var a := Next(s, AddTag(id, user, name));
      && a.chats[id].tags == s.chats[id].tags + {TagId(name)} && TagRow(TagId(name), user) in a.rows
      && Next(a, RemoveTag(id, user, name)) == s
  {
    var a := Next(s, AddTag(id, user, name));
    AddKeeps(s, id, user, name);
    RemoveKeeps(a, id, user, name);
    assert s.chats[id].tags + {TagId(name)} - {TagId(name)} == s.chats[id].tags;
    RowsDetermined(s, Next(a, RemoveTag(id, user, name)));
  }

  /** Adds the tags one endpoint call at a time. */
  function AddEach(s: State, id: string, user: string, names: seq<string>): State {
    if names == [] then s else Next(AddEach(s, id, user, names[..|names| - 1]), AddTag(id, user, names[|names| - 1]))
  }

  /** What one call does to the chats. */
  lemma AddTagChats(s: State, id: string, user: string, name: string)
    requires Owns(s.chats, id, user)
    ensures var added := if IsNone(name) then {} else {TagId(name)};
      Next(s, AddTag(id, user, name)).chats == s.chats[id := s.chats[id].(tags := s.chats[id].tags + added)]
  {
    if IsNone(name) {
      NoneLower(name);
      assert s.chats[id].tags + {} == s.chats[id].tags;
    } else {
      NotNone(name);
      assert TagId(name) in s.chats[id].tags ==> s.chats[id].tags + {TagId(name)} == s.chats[id].tags;
    }
  }

  lemma {:induction false} AddEachTags(s: State, id: string, user: string, names: seq<string>)
    requires Owns(s.chats, id, user)
    ensures AddEach(s, id, user, names).chats ==
      s.chats[id := s.chats[id].(tags := s.chats[id].tags + Ids(Named(Elements(names))))]
  {
    if names == [] {
      assert s.chats[id].tags + Ids(Named(Elements(names))) == s.chats[id].tags;
    } else {
      var front, last := names[..|names| - 1], names[|names| - 1];
      AddEachTags(s, id, user, front);
      AddTagChats(AddEach(s, id, user, front), id, user, last);
      assert Elements(names) == Elements(front) + {last} by { assert names == front + [last]; }
      NamedStep(Elements(front), last, user);
      var tags, added := Ids(Named(Elements(front))), if IsNone(last) then {} else {TagId(last)};
      assert s.chats[id].tags + (tags + added) == s.chats[id].tags + tags + added;
    }
  }

  /** Replacing the tags of an unarchived chat is clearing them and adding each name. */
  lemma ReplaceIsClearThenAdd(s: State, id: string, user: string, names: seq<string>)
    requires ChatTags.Inv(s) && Owns(s.chats, id, user) && !s.chats[id].archived
    ensures var clear := Next(s, ClearTags(id, user));
      && clear.chats[id].tags == {}
      && Next(s, ReplaceTags(id, user, Elements(names))) == AddEach(clear, id, user, names)
  {
    var clear := Next(s, ClearTags(id, user));
    ClearKeeps(s, id, user);
    AddEachKeeps(clear, id, user, names);
    AddEachTags(clear, id, user, names);
    ReplaceKeeps(s, id, user, Elements(names));
    var d := Next(s, ReplaceTags(id, user, Elements(names)));
    assert clear.chats[id].tags + Ids(Named(Elements(names))) == Ids(Named(Elements(names)));
    RowsDetermined(d, AddEach(clear, id, user, names));
  }

  lemma {:induction false} AddEachKeeps(s: State, id: string, user: string, names: seq<string>)
    requires ChatTags.Inv(s) && Owns(s.chats, id, user) && !s.chats[id].archived
    ensures ChatTags.Inv(AddEach(s, id, user, names))
  {
    if names != [] {
      var front := names[..|names| - 1];
      AddEachKeeps(s, id, user, front);
      AddEachTags(s, id, user, front);
      AddKeeps(AddEach(s, id, user, front), id, user, names[|names| - 1]);
    }
  }

  /** Replacing the tags of a chat by what it has, in display form, changes nothing. */
  lemma ReplaceBySame(s: State, id: string, user: string)
    requires ChatTags.Inv(s) && Owns(s.chats, id, user) && !s.chats[id].archived
    ensures var names := set t | t in s.chats[id].tags :: DisplayName(t);
      Next(s, ReplaceTags(id, user, names)) == s
  {
    var tags := s.chats[id].tags;
    var names := set t | t in tags :: DisplayName(t);
    forall t | t in tags ensures TagId(DisplayName(t)) == t && !IsNone(DisplayName(t)) {
      DisplayRoundTrip(t);
      assert NormalTag(t);
      if IsNone(DisplayName(t)) { NoneLower(DisplayName(t)); }
    }
    assert Named(names) == names;
    assert Ids(names) == tags by {
      forall t | t in tags ensures t in Ids(names) { assert DisplayName(t) in names; }
    }
    var d := Next(s, ReplaceTags(id, user, names));
    ReplaceKeeps(s, id, user, names);
    assert d.chats == s.chats;
    RowsDetermined(s, d);
  }

  lemma NoneLower(name: string)
    requires IsNone(name)
    ensures TagId(name) == "none"
  {
  }

  /** Sharing a chat and unsharing it leaves no snapshot and no share id. */
  lemma ShareThenUnshare(s: State, id: string, user: string, newId: string)
    requires Linked(s) && Owns(s.chats, id, user) && s.chats[id].shareId.None? && newId !in s.chats
    ensures var a, c := Next(s, Share(id, user, newId)), s.chats[id];
      && ByShareId(a.chats, newId) == Some(Chat(SnapshotOf(id), c.content, c.tags, c.folder, false, None))
      && Next(a, Unshare(id, user)) == s
  {
    var a := Next(s, Share(id, user, newId));
    SharedAlone(s, id, newId);
    assert a.chats[id].shareId == Some(newId);
    UnshareRestores(s.chats, a.chats, id, newId);
  }

  /** A chat shared for the first time has one snapshot. */
  lemma SharedAlone(s: State, id: string, newId: string)
    requires Linked(s) && id in s.chats && s.chats[id].owner.User? && s.chats[id].shareId.None? && newId !in s.chats
    ensures Snapshots(Shared(s, id, newId).chats, id) == {newId}
  {
    LinkedMeaning(s, id);
    assert forall x :: x in s.chats ==> x !in Snapshots(s.chats, id);
  }

  lemma UnshareRestores(before: map<string, Chat>, shared: map<string, Chat>, id: string, newId: string)
    requires id in before && before[id].shareId.None? && newId !in before && id in shared
    requires newId in shared && shared == before[newId := shared[newId]][id := before[id].(shareId := Some(newId))]
    ensures shared[id := shared[id].(shareId := None)] - {newId} == before
  {
    assert before[id].(shareId := Some(newId)).(shareId := None) == before[id];
  }

  /** The op changes a chat of `other` from outside: tag replacement, an administrator's edit or deletion. */
  ghost predicate Meddles(s: State, op: Op, other: string) {
    (op.ReplaceTags? || ((op.Edit? || op.Delete?) && op.admin)) && Owns(s.chats, op.id, other)
  }

  /** What one user does leaves the tag rows of every other user as they were. */
  lemma OtherRowsUntouched(s: State, op: Op, other: string)
    requires Enabled(s, op) && other != op.user
    ensures forall t :: TagRow(t, other) in s.rows <==> TagRow(t, other) in Next(s, op).rows
  {
  }

  lemma OtherNotRewritten(s: State, op: Op, other: string, c: string)
    requires Rewrites(op) && other != op.user && !Meddles(s, op, other)
    ensures Owns(s.chats, c, other) <==> Owns(Next(s, op).chats, c, other)
    ensures Owns(s.chats, c, other) ==> Next(s, op).chats[c] == s.chats[c]
  {
  }

  lemma OtherNotDropped(s: State, op: Op, other: string, c: string)
    requires !Rewrites(op) && Enabled(s, op) && other != op.user && !Meddles(s, op, other)
    ensures Owns(s.chats, c, other) <==> Owns(Next(s, op).chats, c, other)
    ensures Owns(s.chats, c, other) ==> Next(s, op).chats[c] == s.chats[c]
  {
  }

  /** And their chats, unless it meddles with one of them. */
  lemma OtherChatsUntouched(s: State, op: Op, other: string)
    requires Enabled(s, op) && other != op.user && !Meddles(s, op, other)
    ensures forall c :: Owns(s.chats, c, other) <==> Owns(Next(s, op).chats, c, other)
    ensures forall c :: Owns(s.chats, c, other) ==> Next(s, op).chats[c] == s.chats[c]
  {
    forall c ensures (Owns(s.chats, c, other) <==> Owns(Next(s, op).chats, c, other))
      && (Owns(s.chats, c, other) ==> Next(s, op).chats[c] == s.chats[c])
    {
      if Rewrites(op) { OtherNotRewritten(s, op, other, c); } else { OtherNotDropped(s, op, other, c); }
    }
  }
}
