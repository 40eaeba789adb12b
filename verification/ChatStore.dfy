/** The chat and tag tables and the endpoints that change them (models/chats.py, models/tags.py, routers/chats.py). */
module ChatStore {
  import opened Lists
  import opened Names

  /** The user_id column: a user, or "shared-<chat id>" on the snapshot row of a shared chat. */
  datatype Owner = User(name: string) | SnapshotOf(chat: string)

  /** One chat row; `tags` is the meta tag list, `content` everything else a snapshot copies. */
  datatype Chat = Chat(owner: Owner, content: string, tags: set<string>, folder: Option<string>, archived: bool,
                       shareId: Option<string>)

  datatype TagRow = TagRow(id: string, user: string)

  datatype State = State(chats: map<string, Chat>, rows: set<TagRow>)

  datatype Op =
    | Create(newId: string, user: string, content: string, folder: Option<string>)
    | Import(newId: string, user: string, content: string, folder: Option<string>, tags: set<string>)
    | Clone(id: string, user: string, newId: string, content: string)
    | CloneShared(id: string, user: string, newId: string, content: string, admin: bool)
    | Edit(id: string, user: string, content: string, admin: bool)
    | Move(id: string, user: string, content: string, folder: Option<string>)
    | ListByTag(user: string, name: string)
    | AddTag(id: string, user: string, name: string)
    | ReplaceTags(id: string, user: string, names: set<string>)
    | RemoveTag(id: string, user: string, name: string)
    | ClearTags(id: string, user: string)
    | ToggleArchive(id: string, user: string)
    | ArchiveAll(user: string, archived: bool)
    | Delete(id: string, user: string, admin: bool)
    | DeleteAll(user: string)
    | DeleteInFolder(user: string, inFolder: string)
    | Share(id: string, user: string, newId: string)
    | Unshare(id: string, user: string)

  // ---------- queries ----------

  /** `get_chat_by_id_and_user_id` finds a row. */
  predicate Owns(chats: map<string, Chat>, id: string, user: string) {
    id in chats && chats[id].owner == User(user)
  }

  predicate Carries(c: Chat, user: string, tag: string) {
    c.owner == User(user) && !c.archived && tag in c.tags
  }

  /** The rows `count_chats_by_tag_name_and_user_id` counts. */
  function Carriers(chats: map<string, Chat>, user: string, tag: string): set<string> {
    set c | c in chats && Carries(chats[c], user, tag)
  }

  /** What `get_chat_by_share_id` returns: the row with that id, provided some chat is shared under it. */
  function ByShareId(chats: map<string, Chat>, shareId: string): Option<Chat> {
    if shareId in chats && exists c :: c in chats && chats[c].shareId == Some(shareId) then Some(chats[shareId])
    else None
  }

  /** The row a shared clone copies. */
  function Shown(chats: map<string, Chat>, id: string, admin: bool): Option<Chat> {
    if !admin then ByShareId(chats, id) else if id in chats then Some(chats[id]) else None
  }

  /** `import_chat` on another row's tags and folder. */
  function CopyFor(c: Chat, user: string, content: string): Chat {
    Chat(User(user), content, c.tags, c.folder, false, None)
  }

  /** The user's chats with a tag, archived ones included. */
  function Tagged(chats: map<string, Chat>, user: string, tag: string): set<string> {
    set c | c in chats && chats[c].owner == User(user) && tag in chats[c].tags
  }

  function Ids(tags: set<string>): set<string> { set t | t in tags :: TagId(t) }

  predicate IsNone(name: string) { Lower(name) == "none" }

  function Snapshots(chats: map<string, Chat>, id: string): set<string> {
    set c | c in chats && chats[c].owner == SnapshotOf(id)
  }

  // ---------- effects ----------

  function Rows(user: string, tags: set<string>): set<TagRow> { set t | t in tags :: TagRow(TagId(t), user) }

  /** Deletes the user's rows of those `tags` that exactly `n` chats carry. */
  function Purged(s: State, user: string, tags: set<string>, n: nat): State {
    s.(rows := set r | r in s.rows && !(r.user == user && r.id in Ids(tags) && |Carriers(s.chats, user, r.id)| == n))
  }

  function WithTags(s: State, id: string, tags: set<string>): State requires id in s.chats {
    s.(chats := s.chats[id := s.chats[id].(tags := tags)])
  }

  function Named(names: set<string>): set<string> { set n | n in names && !IsNone(n) }

  /** One more name adds its tag and its row, unless it is none. */
  lemma NamedStep(names: set<string>, name: string, user: string)
    ensures Ids(Named(names + {name})) == Ids(Named(names)) + (if IsNone(name) then {} else {TagId(name)})
    ensures Rows(user, Named(names + {name})) ==
      Rows(user, Named(names)) + (if IsNone(name) then {} else {TagRow(TagId(name), user)})
  {
    assert Named(names + {name}) == Named(names) + (if IsNone(name) then {} else {name});
  }

  function Without(s: State, gone: set<string>): State { s.(chats := s.chats - gone) }

  function OwnedBy(chats: map<string, Chat>, user: string): set<string> {
    set c | c in chats && chats[c].owner == User(user)
  }

  function SnapshotsOfUser(chats: map<string, Chat>, user: string): set<string> {
    set c | c in chats && chats[c].owner.SnapshotOf? && Owns(chats, chats[c].owner.chat, user)
  }

  function SetArchived(s: State, user: string, archived: bool): State {
    s.(chats := map c | c in s.chats ::
      if s.chats[c].owner == User(user) then s.chats[c].(archived := archived) else s.chats[c])
  }

  function Toggled(s: State, id: string, user: string): State requires Owns(s.chats, id, user) {
    var c := s.chats[id].(archived := !s.chats[id].archived);
    var t := s.(chats := s.chats[id := c]);
    if c.archived then Purged(t, user, c.tags, 0) else t.(rows := t.rows + Rows(user, c.tags))
  }

  function Mirrored(snapshot: Chat, c: Chat): Chat {
    snapshot.(content := c.content, tags := c.tags, folder := c.folder)
  }

  /** Refreshes one row as a snapshot of the chat. */
  function Refreshed(s: State, x: string, id: string): State requires x in s.chats && id in s.chats {
    s.(chats := s.chats[x := Mirrored(s.chats[x], s.chats[id])])
  }

  /** Refreshes the snapshot of a shared chat. */
  function Reshared(s: State, id: string): State requires id in s.chats {
    s.(chats := map x | x in s.chats ::
      if s.chats[x].owner == SnapshotOf(id) then Mirrored(s.chats[x], s.chats[id]) else s.chats[x])
  }

  function Shared(s: State, id: string, newId: string): State requires id in s.chats {
    var c := s.chats[id];
    var snapshot := Chat(SnapshotOf(id), c.content, c.tags, c.folder, false, None);
    s.(chats := s.chats[newId := snapshot][id := c.(shareId := Some(newId))])
  }

  function Next(s: State, op: Op): State {
    match op
    case Create(newId, user, content, folder) =>
      s.(chats := s.chats[newId := Chat(User(user), content, {}, folder, false, None)])
    case Import(newId, user, content, folder, tags) =>
      State(s.chats[newId := Chat(User(user), content, tags, folder, false, None)],
            s.rows + Rows(user, set t | t in tags && TagId(t) != "none"))
    case Clone(id, user, newId, content) =>
      if !Owns(s.chats, id, user) then s
      else s.(chats := s.chats[newId := CopyFor(s.chats[id], user, content)])
    case CloneShared(id, user, newId, content, admin) =>
      var source := Shown(s.chats, id, admin);
      if source.None? then s else s.(chats := s.chats[newId := CopyFor(source.value, user, content)])
    case Edit(id, user, content, admin) =>
      if !Owns(s.chats, id, user) && !(admin && id in s.chats) then s
      else s.(chats := s.chats[id := s.chats[id].(content := content)])
    case Move(id, user, content, folder) =>
      if !Owns(s.chats, id, user) then s
      else s.(chats := s.chats[id := s.chats[id].(content := content, folder := folder)])
    case ListByTag(user, name) =>
      if Tagged(s.chats, user, TagId(name)) != {} then s else s.(rows := s.rows - {TagRow(TagId(name), user)})
    case AddTag(id, user, name) =>
      if !Owns(s.chats, id, user) || TagId(name) == "none" || TagId(name) in s.chats[id].tags then s
      else WithTags(s, id, s.chats[id].tags + {TagId(name)}).(rows := s.rows + {TagRow(TagId(name), user)})
    case ReplaceTags(id, user, names) =>
      if id !in s.chats then s
      else
        var t := Purged(WithTags(s, id, {}), user, s.chats[id].tags, 0);
        WithTags(t, id, Ids(Named(names))).(rows := t.rows + Rows(user, Named(names)))
    case RemoveTag(id, user, name) =>
      if !Owns(s.chats, id, user) then s
      else Purged(WithTags(s, id, s.chats[id].tags - {TagId(name)}), user, {name}, 0)
    case ClearTags(id, user) =>
      if !Owns(s.chats, id, user) then s else Purged(WithTags(s, id, {}), user, s.chats[id].tags, 0)
    case ToggleArchive(id, user) => if !Owns(s.chats, id, user) then s else Toggled(s, id, user)
    case ArchiveAll(user, archived) => SetArchived(s, user, archived)
    case Delete(id, user, admin) =>
      if id !in s.chats then s
      else
        var t := Purged(s, user, s.chats[id].tags, 1);
        Without(t, (if admin || Owns(s.chats, id, user) then {id} else {}) + Snapshots(s.chats, id))
    case DeleteAll(user) => Without(s, OwnedBy(s.chats, user) + SnapshotsOfUser(s.chats, user))
    case DeleteInFolder(user, inFolder) =>
      Without(s, set c | c in s.chats && s.chats[c].owner == User(user) && s.chats[c].folder == Some(inFolder))
    case Share(id, user, newId) =>
      if !Owns(s.chats, id, user) then s
      else if s.chats[id].shareId.Some? then Reshared(s, id)
      else Shared(s, id, newId)
    case Unshare(id, user) =>
      if !Owns(s.chats, id, user) || s.chats[id].shareId.None? then s
      else Without(s.(chats := s.chats[id := s.chats[id].(shareId := None)]), Snapshots(s.chats, id))
  }

  /** New rows get ids no row has. */
  predicate Enabled(s: State, op: Op) {
    match op
    case Create(newId, _, _, _) => newId !in s.chats
    case Import(newId, _, _, _, _) => newId !in s.chats
    case Clone(_, _, newId, _) => newId !in s.chats
    case CloneShared(_, _, newId, _, _) => newId !in s.chats
    case Share(_, _, newId) => newId !in s.chats
    case _ => true
  }

  /** The tables after the first `n` steps. */
  function After(s: State, run: seq<Op>, n: nat): State requires n <= |run| {
    if n == 0 then s else Next(After(s, run, n - 1), run[n - 1])
  }

  // ---------- the endpoints ----------

  class ChatTable {
    var chats: map<string, Chat>
    var rows: set<TagRow>

    constructor ()
      ensures Value() == State(map[], {})
    {
      chats, rows := map[], {};
    }

    function Value(): State reads this { State(chats, rows) }

    /** insert_new_chat. */
    method CreateChat(newId: string, user: string, content: string, folder: Option<string>)
      requires newId !in chats
      modifies this
      ensures Value() == Next(old(Value()), Create(newId, user, content, folder))
    {
      chats := chats[newId := Chat(User(user), content, {}, folder, false, None)];
    }

    method InsertTag(name: string, user: string)
      modifies this`rows
      ensures rows == old(rows) + {TagRow(TagId(name), user)}
    {
      if TagRow(TagId(name), user) !in rows {
        rows := rows + {TagRow(TagId(name), user)};
      }
    }

    method DeleteTag(name: string, user: string)
      modifies this`rows
      ensures rows == old(rows) - {TagRow(TagId(name), user)}
    {
      rows := rows - {TagRow(TagId(name), user)};
    }

    method CountTag(name: string, user: string) returns (n: nat)
      ensures n == |Carriers(chats, user, TagId(name))|
    {
      n := |Carriers(chats, user, TagId(name))|;
    }

    /** The loops that drop the rows of tags carried by exactly `n` chats. */
    method PurgeTags(user: string, tags: set<string>, n: nat)
      modifies this`rows
      ensures Value() == Purged(old(Value()), user, tags, n)
    {
      var todo := tags;
      while todo != {}
        invariant todo <= tags
        invariant rows == Purged(old(Value()), user, tags - todo, n).rows
      {
        var t :| t in todo;
        assert Ids(tags - (todo - {t})) == Ids(tags - todo) + {TagId(t)};
        var count := CountTag(t, user);
        if count == n { DeleteTag(t, user); }
        todo := todo - {t};
      }
      assert tags - todo == tags;
    }

    method ImportChat(newId: string, user: string, content: string, folder: Option<string>, tags: set<string>)
      requires newId !in chats
      modifies this
      ensures Value() == Next(old(Value()), Import(newId, user, content, folder, tags))
    {
      chats := chats[newId := Chat(User(user), content, tags, folder, false, None)];
      var todo := tags;
      while todo != {}
        invariant todo <= tags
        invariant chats == old(chats)[newId := Chat(User(user), content, tags, folder, false, None)]
        invariant rows == old(rows) + Rows(user, set t | t in tags - todo && TagId(t) != "none")
      {
        var t :| t in todo;
        DisplayRoundTrip(t);
        DisplayRoundTrip(TagId(t));
        if TagId(t) != "none" { InsertTag(DisplayName(TagId(t)), user); }
        todo := todo - {t};
      }
      assert tags - todo == tags;
    }

    /** clone_chat_by_id: the copy has its own `content`, keeps the tags, and touches no tag row. */
    method CloneChat(id: string, user: string, newId: string, content: string)
      requires newId !in chats
      modifies this
      ensures Value() == Next(old(Value()), Clone(id, user, newId, content))
    {
      if Owns(chats, id, user) {
        chats := chats[newId := CopyFor(chats[id], user, content)];
      }
    }

    /** clone_shared_chat_by_id: an administrator may name any row, others a share link. */
    method CloneSharedChat(id: string, user: string, newId: string, content: string, admin: bool)
      requires newId !in chats
      modifies this
      ensures Value() == Next(old(Value()), CloneShared(id, user, newId, content, admin))
    {
      var source: Option<Chat>;
      if admin { source := if id in chats then Some(chats[id]) else None; } else { source := GetByShareId(id); }
      if source.Some? {
        var c := source.value;
        chats := chats[newId := Chat(User(user), content, c.tags, c.folder, false, None)];
      }
    }

    /** Editing content, by the owner or on a message by an administrator. */
    method EditChat(id: string, user: string, content: string, admin: bool)
      modifies this
      ensures Value() == Next(old(Value()), Edit(id, user, content, admin))
    {
      if id in chats && (chats[id].owner == User(user) || admin) {
        chats := chats[id := chats[id].(content := content)];
      }
    }

    /** update_chat_folder_id_by_id, which also unpins: `content` is the unpinned one. */
    method MoveChat(id: string, user: string, content: string, folder: Option<string>)
      modifies this
      ensures Value() == Next(old(Value()), Move(id, user, content, folder))
    {
      if Owns(chats, id, user) { chats := chats[id := chats[id].(content := content, folder := folder)]; }
    }

    /** get_user_chat_list_by_tag_name: the user's chats with the tag, archived or not; without any, its row goes. */
    method ListChatsByTag(user: string, name: string) returns (found: set<string>)
      modifies this
      ensures found == Tagged(old(chats), user, TagId(name))
      ensures Value() == Next(old(Value()), ListByTag(user, name))
    {
      found := Tagged(chats, user, TagId(name));
      if found == {} { DeleteTag(name, user); }
    }

    /** add_chat_tag_by_id_and_user_id_and_tag_name; the row is inserted even when there is no such chat. */
    method AddChatTag(id: string, user: string, name: string) returns (found: bool)
      modifies this
      ensures found == (id in old(chats))
      ensures found ==> chats == old(chats)[id := old(chats[id]).(tags := old(chats[id].tags) + {TagId(name)})]
      ensures !found ==> chats == old(chats)
      ensures rows == old(rows) + {TagRow(TagId(name), user)}
    {
      InsertTag(name, user);
      found := id in chats;
      if !found { return; }
      assert TagId(name) in chats[id].tags ==> chats[id].tags + {TagId(name)} == chats[id].tags;
      if TagId(name) !in chats[id].tags {
        chats := chats[id := chats[id].(tags := chats[id].tags + {TagId(name)})];
      }
    }

    method AddTagEndpoint(id: string, user: string, name: string)
      modifies this
      ensures Value() == Next(old(Value()), AddTag(id, user, name))
    {
      if Owns(chats, id, user) && TagId(name) != "none" && TagId(name) !in chats[id].tags {
        var _ := AddChatTag(id, user, name);
      }
    }

    /** update_chat_tags_by_id. */
    method UpdateChatTags(id: string, user: string, names: set<string>)
      modifies this
      ensures Value() == Next(old(Value()), ReplaceTags(id, user, names))
    {
      if id !in chats { return; }
      var tags := chats[id].tags;
      chats := chats[id := chats[id].(tags := {})];
      PurgeTags(user, tags, 0);
      AddTags(id, user, names);
      assert {} + Ids(Named(names)) == Ids(Named(names));
    }

    /** Its loop over the new names. */
    method AddTags(id: string, user: string, names: set<string>)
      requires id in chats
      modifies this
      ensures chats == WithTags(old(Value()), id, old(chats[id].tags) + Ids(Named(names))).chats
      ensures rows == old(rows) + Rows(user, Named(names))
    {
      var todo := names;
      assert old(chats[id].tags) + Ids(Named(names - todo)) == old(chats[id].tags);
      while todo != {}
        invariant todo <= names && id in chats
        invariant chats == WithTags(old(Value()), id, old(chats[id].tags) + Ids(Named(names - todo))).chats
        invariant rows == old(rows) + Rows(user, Named(names - todo))
      {
        var name :| name in todo;
        NamedStep(names - todo, name, user);
        assert names - (todo - {name}) == (names - todo) + {name};
        ghost var added := if IsNone(name) then {} else {TagId(name)};
        assert old(chats[id].tags) + Ids(Named(names - (todo - {name}))) == chats[id].tags + added;
        assert IsNone(name) ==> chats[id].tags + added == chats[id].tags;
        if !IsNone(name) { var _ := AddChatTag(id, user, name); }
        todo := todo - {name};
      }
      assert names - todo == names;
    }

    method RemoveTagEndpoint(id: string, user: string, name: string)
      modifies this
      ensures Value() == Next(old(Value()), RemoveTag(id, user, name))
    {
      if !Owns(chats, id, user) { return; }
      chats := chats[id := chats[id].(tags := chats[id].tags - {TagId(name)})];
      var count := CountTag(name, user);
      assert Ids({name}) == {TagId(name)};
      if count == 0 { DeleteTag(name, user); }
    }

    method ClearTagsEndpoint(id: string, user: string)
      modifies this
      ensures Value() == Next(old(Value()), ClearTags(id, user))
    {
      if !Owns(chats, id, user) { return; }
      var tags := chats[id].tags;
      chats := chats[id := chats[id].(tags := {})];
      PurgeTags(user, tags, 0);
    }

    method ToggleArchiveEndpoint(id: string, user: string)
      modifies this
      ensures Value() == Next(old(Value()), ToggleArchive(id, user))
    {
      if !Owns(chats, id, user) { return; }
      chats := chats[id := chats[id].(archived := !chats[id].archived)];
      if chats[id].archived {
        PurgeTags(user, chats[id].tags, 0);
      } else {
        RestoreTags(user, chats[id].tags);
      }
    }

    method RestoreTags(user: string, tags: set<string>)
      modifies this`rows
      ensures rows == old(rows) + Rows(user, tags)
    {
      var todo := tags;
      while todo != {}
        invariant todo <= tags && rows == old(rows) + Rows(user, tags - todo)
      {
        var t :| t in todo;
        assert tags - (todo - {t}) == (tags - todo) + {t};
        InsertTag(t, user);
        todo := todo - {t};
      }
      assert tags - todo == tags;
    }

    /** delete_chat_by_id; false when the chat does not exist, where the source raises. */
    method DeleteChat(id: string, user: string, admin: bool) returns (found: bool)
      modifies this
      ensures found == (id in old(chats))
      ensures Value() == Next(old(Value()), Delete(id, user, admin))
    {
      found := id in chats;
      if !found { return; }
      PurgeTags(user, chats[id].tags, 1);
      ghost var was := chats;
      if admin || Owns(chats, id, user) { chats := chats - {id}; }
      chats := chats - Snapshots(chats, id);
      assert chats == was - ((if admin || Owns(was, id, user) then {id} else {}) + Snapshots(was, id));
    }

    method DeleteAllChats(user: string)
      modifies this
      ensures Value() == Next(old(Value()), DeleteAll(user))
    {
      ghost var was := chats;
      chats := chats - SnapshotsOfUser(chats, user);
      chats := chats - OwnedBy(chats, user);
      assert chats == was - (OwnedBy(was, user) + SnapshotsOfUser(was, user));
    }

    /** delete_chats_by_user_id_and_folder_id. */
    method DeleteFolderChats(user: string, folder: string)
      modifies this
      ensures Value() == Next(old(Value()), DeleteInFolder(user, folder))
    {
      chats := chats - (set c | c in chats && chats[c].owner == User(user) && chats[c].folder == Some(folder));
    }

    /** share_chat_by_id; the refresh updates the first snapshot row it finds. */
    method ShareChat(id: string, user: string, newId: string)
      requires newId !in chats
      modifies this
      ensures |Snapshots(old(chats), id)| <= 1 ==> Value() == Next(old(Value()), Share(id, user, newId))
      ensures |Snapshots(old(chats), id)| > 1 && old(Owns(chats, id, user) && chats[id].shareId.Some?) ==>
        exists x :: x in Snapshots(old(chats), id) && Value() == Refreshed(old(Value()), x, id)
    {
      if !Owns(chats, id, user) { return; }
      var c := chats[id];
      if c.shareId.Some? {
        var snapshots := Snapshots(chats, id);
        assert forall y :: y in chats && chats[y].owner == SnapshotOf(id) <==> y in snapshots;
        assert snapshots == {} ==> chats == Reshared(Value(), id).chats;
        if snapshots != {} {
          var x :| x in snapshots;
          assert |snapshots - {x}| == |snapshots| - 1;
          assert |snapshots| <= 1 ==> snapshots == {x};
          chats := chats[x := Mirrored(chats[x], c)];
          assert |snapshots| <= 1 ==> chats == Reshared(old(Value()), id).chats;
        }
      } else {
        chats := chats[newId := Chat(SnapshotOf(id), c.content, c.tags, c.folder, false, None)];
        chats := chats[id := chats[id].(shareId := Some(newId))];
      }
    }

    method UnshareChat(id: string, user: string) returns (was: bool)
      modifies this
      ensures was == (Owns(old(chats), id, user) && old(chats)[id].shareId.Some?)
      ensures Value() == Next(old(Value()), Unshare(id, user))
    {
      was := Owns(chats, id, user) && chats[id].shareId.Some?;
      if !was { return; }
      chats := chats - Snapshots(chats, id);
      chats := chats[id := chats[id].(shareId := None)];
    }

    /** get_chat_by_share_id: looks for a chat shared under the id, then for the row with that id. */
    method GetByShareId(shareId: string) returns (r: Option<Chat>)
      ensures r == ByShareId(chats, shareId)
    {
      var shared := set c | c in chats && chats[c].shareId == Some(shareId);
      if c :| c in shared { return if shareId in chats then Some(chats[shareId]) else None; }
      assert forall c :: c in chats && chats[c].shareId == Some(shareId) ==> c in shared;
      r := None;
    }
  }
}
