/** What every operation does to each field of each chat row and to each tag row (models/chats.py, routers/chats.py). */
module ChatFields {
  import opened Lists
  import opened Names
  import opened ChatStore

  // ---------- rows ----------

  /** The row goes: a chat deleted by its owner or an administrator, or with its user or folder, and the snapshots of a
      deleted or unshared chat. */
  ghost predicate Leaves(s: State, op: Op, c: string) requires c in s.chats {
    var row := s.chats[c];
    match op
    case Delete(id, user, admin) =>
      id in s.chats && ((c == id && (admin || row.owner == User(user))) || row.owner == SnapshotOf(id))
    case DeleteAll(user) => row.owner == User(user) || (row.owner.SnapshotOf? && Owns(s.chats, row.owner.chat, user))
    case DeleteInFolder(user, folder) => row.owner == User(user) && row.folder == Some(folder)
    case Unshare(id, user) => Owns(s.chats, id, user) && s.chats[id].shareId.Some? && row.owner == SnapshotOf(id)
    case _ => false
  }

  /** What the operation copies into a new row: what it is given, or another row. */
  ghost predicate Enters(s: State, op: Op) {
    match op
    case Create(_, _, _, _) => true
    case Import(_, _, _, _, _) => true
    case Clone(id, user, _, _) => Owns(s.chats, id, user)
    case CloneShared(id, _, _, _, admin) =>
      id in s.chats && (admin || exists c :: c in s.chats && s.chats[c].shareId == Some(id))
    case Share(id, user, _) => Owns(s.chats, id, user) && s.chats[id].shareId.None?
    case _ => false
  }

  /** After any operation the table has the old rows that do not leave and, if one enters, the new row. */
  lemma RowsExactly(s: State, op: Op, c: string)
    requires Enabled(s, op)
    ensures c in Next(s, op).chats
      <==> (c in s.chats && !Leaves(s, op, c)) || (Enters(s, op) && c == op.newId)
  {
  }

  /** A new row belongs to the caller and is not archived; a snapshot belongs to its chat. Nothing new is shared. */
  lemma NewRow(s: State, op: Op)
    requires Enabled(s, op) && Enters(s, op)
    ensures op.newId in Next(s, op).chats && op.newId !in s.chats
    ensures var row := Next(s, op).chats[op.newId];
      && row.owner == (if op.Share? then SnapshotOf(op.id) else User(op.user)) && !row.archived && row.shareId.None?
      && row.content == (if op.Share? then s.chats[op.id].content else op.content)
      && row.tags == (if op.Create? then {} else if op.Import? then op.tags else s.chats[op.id].tags)
      && row.folder == (if op.Create? || op.Import? then op.folder else s.chats[op.id].folder)
  {
  }

  // ---------- the fields of a row that stays ----------

  ghost predicate Stays(s: State, op: Op, c: string) { c in s.chats && c in Next(s, op).chats }

  /** The row is a snapshot that the operation takes anew. */
  ghost predicate Retakes(s: State, op: Op, c: string) requires c in s.chats {
    op.Share? && Owns(s.chats, op.id, op.user) && s.chats[op.id].shareId.Some? && s.chats[c].owner == SnapshotOf(op.id)
  }

  lemma OwnerExactly(s: State, op: Op, c: string)
    requires Enabled(s, op) && Stays(s, op, c)
    ensures Next(s, op).chats[c].owner == s.chats[c].owner
  {
  }

  lemma ContentExactly(s: State, op: Op, c: string)
    requires Enabled(s, op) && Stays(s, op, c)
    ensures Next(s, op).chats[c].content ==
      if op.Edit? && c == op.id && (op.admin || Owns(s.chats, c, op.user)) then op.content
      else if op.Move? && c == op.id && Owns(s.chats, c, op.user) then op.content
      else if Retakes(s, op, c) then s.chats[op.id].content
      else s.chats[c].content
  {
  }

  lemma FolderExactly(s: State, op: Op, c: string)
    requires Enabled(s, op) && Stays(s, op, c)
    ensures Next(s, op).chats[c].folder ==
      if op.Move? && c == op.id && Owns(s.chats, c, op.user) then op.folder
      else if Retakes(s, op, c) then s.chats[op.id].folder
      else s.chats[c].folder
  {
  }

  lemma ArchivedExactly(s: State, op: Op, c: string)
    requires Enabled(s, op) && Stays(s, op, c)
    ensures Next(s, op).chats[c].archived ==
      if op.ArchiveAll? && Owns(s.chats, c, op.user) then op.archived
      else if op.ToggleArchive? && c == op.id && Owns(s.chats, c, op.user) then !s.chats[c].archived
      else s.chats[c].archived
  {
  }

  lemma ShareIdExactly(s: State, op: Op, c: string)
    requires Enabled(s, op) && Stays(s, op, c)
    ensures Next(s, op).chats[c].shareId ==
      if op.Share? && c == op.id && Owns(s.chats, c, op.user) && s.chats[c].shareId.None? then Some(op.newId)
      else if op.Unshare? && c == op.id && Owns(s.chats, c, op.user) then None
      else s.chats[c].shareId
  {
  }

  /** The tag is put on the chat. */
  ghost predicate Tags(s: State, op: Op, c: string, t: string) {
    match op
    case AddTag(id, user, name) => c == id && Owns(s.chats, c, user) && t == TagId(name) && t != "none"
    case ReplaceTags(id, _, names) => c == id && exists n :: n in names && !IsNone(n) && TagId(n) == t
    case _ => false
  }

  /** The tag is taken off the chat. */
  ghost predicate Untags(s: State, op: Op, c: string, t: string) {
    match op
    case ReplaceTags(id, _, _) => c == id
    case RemoveTag(id, user, name) => c == id && Owns(s.chats, c, user) && t == TagId(name)
    case ClearTags(id, user) => c == id && Owns(s.chats, c, user)
    case _ => false
  }

  lemma TagsExactly(s: State, op: Op, c: string, t: string)
    requires Enabled(s, op) && Stays(s, op, c)
    ensures t in Next(s, op).chats[c].tags <==>
      if Retakes(s, op, c) then t in s.chats[op.id].tags
      else Tags(s, op, c, t) || (t in s.chats[c].tags && !Untags(s, op, c, t))
  {
  }

  // ---------- tag rows ----------

  ghost predicate CarriedElsewhere(s: State, id: string, user: string, t: string) {
    exists c :: c in s.chats && c != id && Carries(s.chats[c], user, t)
  }

  /** One chat of the user carries the tag and no other does. */
  ghost predicate CarriedOnce(s: State, user: string, t: string) {
    exists c :: c in s.chats && Carries(s.chats[c], user, t) && !CarriedElsewhere(s, c, user, t)
  }

  ghost predicate HasTagOf(s: State, id: string, t: string) {
    id in s.chats && exists x :: x in s.chats[id].tags && TagId(x) == t
  }

  /** The caller's row of the tag is inserted. */
  ghost predicate Inserts(s: State, op: Op, t: string) {
    match op
    case Import(_, _, _, _, tags) => t != "none" && exists x :: x in tags && TagId(x) == t
    case AddTag(id, user, name) => Owns(s.chats, id, user) && t == TagId(name) && t != "none" && t !in s.chats[id].tags
    case ReplaceTags(id, _, names) => id in s.chats && exists n :: n in names && !IsNone(n) && TagId(n) == t
    case ToggleArchive(id, user) => Owns(s.chats, id, user) && s.chats[id].archived && HasTagOf(s, id, t)
    case _ => false
  }

  /** The caller's row of the tag is deleted. */
  ghost predicate Deletes(s: State, op: Op, t: string) {
    match op
    case ReplaceTags(id, user, _) => HasTagOf(s, id, t) && !CarriedElsewhere(s, id, user, t)
    case RemoveTag(id, user, name) =>
      Owns(s.chats, id, user) && t == TagId(name) && !CarriedElsewhere(s, id, user, t)
    case ClearTags(id, user) => Owns(s.chats, id, user) && HasTagOf(s, id, t) && !CarriedElsewhere(s, id, user, t)
    case ToggleArchive(id, user) =>
      Owns(s.chats, id, user) && !s.chats[id].archived && HasTagOf(s, id, t) && !CarriedElsewhere(s, id, user, t)
    case Delete(id, user, _) => HasTagOf(s, id, t) && CarriedOnce(s, user, t)
    case ListByTag(user, name) =>
      t == TagId(name) && forall c :: c in s.chats && s.chats[c].owner == User(user) ==> t !in s.chats[c].tags
    case _ => false
  }

  lemma NoneCarry(chats: map<string, Chat>, s: State, id: string, user: string, t: string)
    requires forall c :: c != id ==> (c in chats <==> c in s.chats) && (c in chats ==> chats[c] == s.chats[c])
    requires id in chats ==> !Carries(chats[id], user, t)
    ensures |Carriers(chats, user, t)| == 0 <==> !CarriedElsewhere(s, id, user, t)
  {
    if c :| c in s.chats && c != id && Carries(s.chats[c], user, t) { assert c in Carriers(chats, user, t); }
    if Carriers(chats, user, t) != {} { var c :| c in Carriers(chats, user, t); }
  }

  lemma OneCarries(s: State, user: string, t: string)
    ensures |Carriers(s.chats, user, t)| == 1 <==> CarriedOnce(s, user, t)
  {
    var all := Carriers(s.chats, user, t);
    if all != {} {
      var c :| c in all;
      assert |all - {c}| == |all| - 1;
      if d :| d in s.chats && d != c && Carries(s.chats[d], user, t) { assert d in all - {c}; }
      if all - {c} != {} { var d :| d in all - {c}; }
    }
    if c :| c in s.chats && Carries(s.chats[c], user, t) { assert c in all; }
  }

  lemma PurgedRows(s: State, user: string, tags: set<string>, n: nat, t: string, u: string)
    ensures TagRow(t, u) in Purged(s, user, tags, n).rows <==>
      (TagRow(t, u) in s.rows && !(u == user && (exists x :: x in tags && TagId(x) == t)
                                   && |Carriers(s.chats, user, t)| == n))
  {
  }

  /** The row is there exactly if it was inserted, or was there and was not deleted. */
  ghost predicate RowFollows(s: State, op: Op, t: string, u: string) {
    TagRow(t, u) in Next(s, op).rows <==>
      (u == op.user && Inserts(s, op, t)) || (TagRow(t, u) in s.rows && !(u == op.user && Deletes(s, op, t)))
  }

  lemma ReplaceRows(s: State, op: Op, t: string, u: string)
    requires op.ReplaceTags?
    ensures RowFollows(s, op, t, u)
  {
    if op.id in s.chats {
      var w := WithTags(s, op.id, {});
      NoneCarry(w.chats, s, op.id, op.user, t);
      PurgedRows(w, op.user, s.chats[op.id].tags, 0, t, u);
    }
  }

  lemma RemoveRows(s: State, op: Op, t: string, u: string)
    requires op.RemoveTag?
    ensures RowFollows(s, op, t, u)
  {
    if Owns(s.chats, op.id, op.user) {
      var w := WithTags(s, op.id, s.chats[op.id].tags - {TagId(op.name)});
      if t == TagId(op.name) { NoneCarry(w.chats, s, op.id, op.user, t); }
      PurgedRows(w, op.user, {op.name}, 0, t, u);
    }
  }

  lemma ClearRows(s: State, op: Op, t: string, u: string)
    requires op.ClearTags?
    ensures RowFollows(s, op, t, u)
  {
    if Owns(s.chats, op.id, op.user) {
      var w := WithTags(s, op.id, {});
      NoneCarry(w.chats, s, op.id, op.user, t);
      PurgedRows(w, op.user, s.chats[op.id].tags, 0, t, u);
    }
  }

  lemma ToggleRows(s: State, op: Op, t: string, u: string)
    requires op.ToggleArchive?
    ensures RowFollows(s, op, t, u)
  {
    if Owns(s.chats, op.id, op.user) && !s.chats[op.id].archived {
      var w := s.(chats := s.chats[op.id := s.chats[op.id].(archived := true)]);
      NoneCarry(w.chats, s, op.id, op.user, t);
      PurgedRows(w, op.user, s.chats[op.id].tags, 0, t, u);
    }
  }

  lemma DeleteRows(s: State, op: Op, t: string, u: string)
    requires op.Delete?
    ensures RowFollows(s, op, t, u)
  {
    if op.id in s.chats {
      OneCarries(s, op.user, t);
      PurgedRows(s, op.user, s.chats[op.id].tags, 1, t, u);
    }
  }

  lemma ListRows(s: State, op: Op, t: string, u: string)
    requires op.ListByTag?
    ensures RowFollows(s, op, t, u)
  {
    var tagged := Tagged(s.chats, op.user, TagId(op.name));
    forall c | c in s.chats && s.chats[c].owner == User(op.user) && TagId(op.name) in s.chats[c].tags
      ensures c in tagged
    {
    }
    if tagged != {} { var c :| c in tagged; }
  }

  /** Each tag row after any operation. */
  lemma TagRowsExactly(s: State, op: Op, t: string, u: string)
    ensures TagRow(t, u) in Next(s, op).rows <==>
      (u == op.user && Inserts(s, op, t)) || (TagRow(t, u) in s.rows && !(u == op.user && Deletes(s, op, t)))
  {
    match op
    case ReplaceTags(_, _, _) => ReplaceRows(s, op, t, u);
    case RemoveTag(_, _, _) => RemoveRows(s, op, t, u);
    case ClearTags(_, _) => ClearRows(s, op, t, u);
    case ToggleArchive(_, _) => ToggleRows(s, op, t, u);
    case Delete(_, _, _) => DeleteRows(s, op, t, u);
    case ListByTag(_, _) => ListRows(s, op, t, u);
    case _ =>
  }

  // ---------- deletions ----------

  /** The owner's or an administrator's deletion removes the chat, anyone else's keeps it; either way none of its
      snapshots is left and every other row is as it was. */
  lemma DeleteMeaning(s: State, id: string, user: string, admin: bool)
    requires id in s.chats
    ensures var d := Next(s, Delete(id, user, admin));
      && (id in d.chats <==> !admin && s.chats[id].owner != User(user) && s.chats[id].owner != SnapshotOf(id))
      && (forall c :: c in d.chats ==> c in s.chats && d.chats[c] == s.chats[c] && d.chats[c].owner != SnapshotOf(id))
      && (forall c :: c in s.chats && c != id && s.chats[c].owner != SnapshotOf(id) ==> c in d.chats)
  {
  }

  /** No chat of the user is left, archived or not, nor a snapshot of one; every other row is as it was. */
  lemma DeleteAllMeaning(s: State, user: string)
    ensures var d := Next(s, DeleteAll(user));
      && (forall c :: c in d.chats ==> c in s.chats && d.chats[c] == s.chats[c] && d.chats[c].owner != User(user))
      && (forall c :: c in d.chats && d.chats[c].owner.SnapshotOf? ==> !Owns(s.chats, d.chats[c].owner.chat, user))
      && (forall c :: c in s.chats && s.chats[c].owner.User? && s.chats[c].owner.name != user ==> c in d.chats)
  {
  }
}
