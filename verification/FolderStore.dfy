/** The folder endpoints over a mutable table (models/folders.py, routers/folders.py). */
module FolderStore {
  import opened Lists
  import opened Folders
  import opened FolderEdits
  import opened FolderDepth
  import ChatStore

  class FolderTable {
    var rows: seq<Folder>
    var chats: map<string, Chat>

    constructor (rows: seq<Folder>, chats: map<string, Chat>)
      ensures this.rows == rows && this.chats == chats
    {
      this.rows, this.chats := rows, chats;
    }

    ghost predicate Valid() reads this { Forest(rows, "").UniqueIds() }

    function Of(user: string): Forest reads this { Forest(rows, user) }

    /** get_children; `limit` is how many calls may be open at once, and a further one raises. */
    method CollectChildren(user: string, p: string, folders: seq<string>, limit: nat)
      returns (ids: seq<string>, ok: bool)
      requires Valid()
      ensures ok <==> Of(user).Fits(p, limit)
      ensures ok ==> ids == folders + Of(user).OrderFrom(p, limit, 0)
      decreases limit
    {
      ids := folders;
      if limit == 0 { return ids, false; }
      ghost var f := Of(user);
      var children := Of(user).Children(p);
      f.ChildrenMeaning(p);
      var i := 0;
      while i < |children|
        invariant 0 <= i <= |children|
        invariant ids + f.OrderFrom(p, limit, i) == folders + f.OrderFrom(p, limit, 0)
        invariant forall j :: 0 <= j < i ==> f.Fits(children[j].id, limit - 1)
      {
        ids, ok := CollectChildren(user, children[i].id, ids, limit - 1);
        if !ok { return; }
        ids := ids + [children[i].id];
        i := i + 1;
      }
      ok := true;
    }

    /** The descendants of a folder, each once, lower ones first; None when the user has no such folder or the recursion
        runs out of calls. */
    method GetChildrenFolders(id: string, user: string, limit: nat) returns (r: Option<seq<string>>)
      requires Valid()
      ensures r.Some? <==> Find(rows, id, user).Some? && Of(user).Fits(id, limit)
      ensures r.Some? ==> Of(user).AcyclicFrom(id) && r.value == Of(user).PostOrder(id)
    {
      if Find(rows, id, user).None? { return None; }
      var ids, ok := CollectChildren(user, id, [], limit);
      if !ok { return None; }
      Of(user).FitsOrder(id, limit, 0);
      assert ids == Of(user).PostOrder(id);
      return Some(ids);
    }

    /** delete_children: deletes below `p`, reading the children again from the shrinking table at every folder. When it
        runs out of calls, what was deleted until then stays deleted: `gone`. */
    method DeleteChildren(user: string, p: string, folderIds: seq<string>, limit: nat)
      returns (ids: seq<string>, ok: bool, ghost gone: set<string>)
      requires Valid()
      modifies this`rows
      ensures Valid() && rows == Without(old(rows), gone) && (gone, ok) == Taken(old(Of(user)), p, limit)
      ensures ok <==> old(Of(user)).Fits(p, limit)
      ensures ok ==> gone == old(Of(user)).Descendants(p)
      ensures ok ==> ids == folderIds + old(Of(user)).OrderFrom(p, limit, 0)
      decreases limit, 0
    {
      ghost var f := Of(user);
      ids, gone := folderIds, {};
      WithoutNone(rows);
      if limit == 0 { return ids, false, gone; }
      var children := Of(user).Children(p);
      FirstTurn(f, p);
      var i := 0;
      while i < |children|
        invariant 0 <= i <= |children| && Valid() && rows == Without(f.rows, gone)
        invariant Progress(f, p, limit, folderIds, i, gone, ids)
      {
        ghost var taken := ids;
        ghost var before := gone;
        ids, ok, gone := DeleteTree(user, p, i, children[i].id, ids, limit - 1, f, gone);
        if !ok {
          TakenStops(f, p, limit, i, before);
          return;
        }
        ProgressNext(f, p, limit, folderIds, i, before, taken);
        i := i + 1;
      }
      ProgressEnd(f, p, limit, folderIds, gone, ids);
      TakenMeaning(f, p, limit);
      ok := true;
    }

    /** One pass of the loop above: the folders below the child, then the child. */
    method DeleteTree(user: string, ghost p: string, ghost i: nat, child: string, folderIds: seq<string>, limit: nat,
                      ghost f: Forest, ghost before: set<string>)
      returns (ids: seq<string>, ok: bool, ghost gone: set<string>)
      requires Valid() && f.UniqueIds() && f.user == user && rows == Without(f.rows, before)
      requires i < |f.Children(p)| && f.Children(p)[i].id == child && Turn(f, p, i, before)
      modifies this`rows
      ensures Valid() && rows == Without(f.rows, gone)
      ensures ok <==> f.Fits(child, limit)
      ensures ok ==> gone == before + f.Tree(child) && ids == folderIds + f.OrderFrom(child, limit, 0) + [child]
      ensures !ok ==> gone == before + Taken(Cut(f, before), child, limit).0
      decreases limit, 1
    {
      ChildTurn(f, p, i, before, limit);
      assert Of(user) == Cut(f, before);
      ghost var more;
      ids, ok, more := DeleteChildren(user, child, folderIds, limit);
      gone := before + more;
      WithoutTwice(f.rows, before, more);
      if !ok { return; }
      ids := ids + [child];
      UniqueWithout(rows, {child});
      rows := Without(rows, {child});
      WithoutTwice(f.rows, gone, {child});
      assert before + more + {child} == before + f.Tree(child);
      gone := before + f.Tree(child);
    }

    /** Removes a folder with everything below it and lists what was removed. When the recursion runs out of calls the
        list is empty, and what was taken until then is gone. */
    method DeleteFolder(id: string, user: string, limit: nat) returns (ids: seq<string>, ghost gone: set<string>)
      requires Valid()
      modifies this`rows
      ensures Valid() && rows == Without(old(rows), gone) && Removable(old(Of(user)), gone)
      ensures old(Find(rows, id, user)).None? ==> ids == [] && gone == {}
      ensures old(Find(rows, id, user)).Some? && !old(Of(user)).Fits(id, limit) ==>
        ids == [] && gone == Taken(old(Of(user)), id, limit).0 && gone <= old(Of(user)).Descendants(id) && id !in gone
      ensures old(Find(rows, id, user)).Some? && old(Of(user)).Fits(id, limit) ==>
        old(Of(user)).AcyclicFrom(id) && gone == old(Of(user)).Tree(id) && ids == [id] + old(Of(user)).PostOrder(id)
    {
      ghost var f := Of(user);
      WithoutNone(rows);
      if Find(rows, id, user).None? { return [], {}; }
      var ok;
      ids, ok, gone := DeleteChildren(user, id, [id], limit);
      TakenMeaning(f, id, limit);
      if !ok { return [], gone; }
      f.FitsOrder(id, limit, 0);
      UniqueWithout(rows, {id});
      rows := Without(rows, {id});
      WithoutTwice(f.rows, gone, {id});
      TreeRemovable(f, id);
      assert gone + {id} == f.Tree(id);
      gone := f.Tree(id);
    }

    /** If the folder is the user's and matches, its traversal does not run out of calls. */
    ghost predicate Searchable(user: string, queries: seq<string>, limit: nat, r: Folder) reads this {
      r.user == user && Matches(r, queries) ==> Of(user).Fits(r.id, limit)
    }

    /** Matching folders and everything below them, each once; None when a traversal fails, where the source raises. */
    method SearchByNames(user: string, queries: seq<string>, limit: nat) returns (results: Option<seq<string>>)
      requires Valid()
      ensures results.Some? <==> forall r :: r in rows ==> Searchable(user, queries, limit, r)
      ensures results.Some? ==> NoDups(results.value) && Elements(results.value) == FoundIn(Of(user), queries, rows)
    {
      if queries == [] { return Some([]); }
      var found: seq<string> := [];
      var i := 0;
      while i < |rows|
        invariant 0 <= i <= |rows|
        invariant NoDups(found) && Elements(found) == FoundIn(Of(user), queries, rows[..i])
        invariant forall j :: 0 <= j < i ==> Searchable(user, queries, limit, rows[j])
      {
        FoundStep(Of(user), queries, i);
        if rows[i].user == user && Matches(rows[i], queries) {
          var children := GetChildrenFolders(rows[i].id, user, limit);
          if children.None? {
            assert Of(user).IsRow(rows[i]) && !Searchable(user, queries, limit, rows[i]);
            return None;
          }
          found := PutTree(user, rows[i], children.value, found);
        }
        i := i + 1;
      }
      assert rows[..i] == rows;
      return Some(found);
    }

    method PutTree(user: string, folder: Folder, children: seq<string>, found: seq<string>) returns (r: seq<string>)
      requires Valid() && Of(user).AcyclicFrom(folder.id) && children == Of(user).PostOrder(folder.id) && NoDups(found)
      ensures NoDups(r) && Elements(r) == Elements(found) + Of(user).Tree(folder.id)
    {
      Of(user).PostOrderElements(folder.id, 0);
      Of(user).TreesAll(folder.id);
      assert Elements(found + [folder.id]) == Elements(found) + {folder.id};
      r := PutAll(Put(found, folder.id), children);
    }

    /** Sets a folder's parent without looking where the new parent lies. */
    method UpdateParent(id: string, user: string, parent: Option<string>) returns (found: bool)
      modifies this`rows
      ensures found == old(Find(rows, id, user)).Some?
      ensures rows == Moved(old(rows), id, user, parent)
    {
      found := Find(rows, id, user).Some?;
      rows := Moved(rows, id, user, parent);
    }

    /** `get_folders`: folders whose parent is gone move to the top level. */
    method RepairParents(user: string)
      requires Valid()
      modifies this`rows
      ensures rows == Repaired(old(Of(user)))
    {
      ghost var f := Of(user);
      var folders := rows;
      var i := 0;
      while i < |folders|
        invariant 0 <= i <= |folders| && folders == f.rows
        invariant rows == RepairedTo(f, i)
      {
        SameLookup(f, i, folders[i]);
        if folders[i].user == user && Orphan(Of(user), folders[i]) {
          var _ := UpdateParent(folders[i].id, user, None);
        }
        i := i + 1;
      }
    }

    method DeleteChatsIn(user: string, ids: seq<string>)
      modifies this`chats
      ensures chats == ChatsOutside(old(chats), user, Elements(ids))
    {
      assert chats == ChatsOutside(chats, user, Elements([]));
      for i := 0 to |ids|
        invariant chats == ChatsOutside(old(chats), user, Elements(ids[..i]))
      {
        assert ids[..i + 1] == ids[..i] + [ids[i]];
        assert Elements(ids[..i + 1]) == Elements(ids[..i]) + {ids[i]};
        CascadePass(ChatStore.State(chats, {}), user, ids[i]);
        chats := ChatStore.Next(ChatStore.State(chats, {}), ChatStore.DeleteInFolder(user, ids[i])).chats;
      }
      assert ids[..|ids|] == ids;
    }

    /** `delete_folder_by_id`: the folder, everything below it, and the user's chats in any of them. When the deletion
        runs out of calls the endpoint still reports success, with the folder and all chats in place. */
    method DeleteFolderById(id: string, user: string, admin: bool, mayDelete: bool, limit: nat)
      returns (status: Status, ghost gone: set<string>)
      requires Valid()
      modifies this
      ensures status == (if !admin && !mayDelete && (exists c :: ChatStore.Owns(old(chats), c, user)
                                                                 && old(chats)[c].folder == Some(id)) then Forbidden
                         else if old(Find(rows, id, user)).None? then NotFound else Deleted)
      ensures Valid() && rows == Without(old(rows), gone) && Removable(old(Of(user)), gone)
      ensures status != Deleted ==> gone == {} && chats == old(chats)
      ensures status == Deleted && old(Of(user)).Fits(id, limit) ==>
        gone == old(Of(user)).Tree(id) && chats == ChatsOutside(old(chats), user, gone)
      ensures status == Deleted && !old(Of(user)).Fits(id, limit) ==>
        gone == Taken(old(Of(user)), id, limit).0 && id !in gone && chats == old(chats)
    {
      ghost var f := Of(user);
      WithoutNone(rows);
      if HasChats(chats, user, id) && !admin && !mayDelete { return Forbidden, {}; }
      if Find(rows, id, user).None? { return NotFound, {}; }
      var ids;
      ids, gone := DeleteFolder(id, user, limit);
      if f.Fits(id, limit) { DeletionOrder(f, id); }
      ghost var before := chats;
      DeleteChatsIn(user, ids);
      assert ids == [] ==> ChatsOutside(before, user, Elements(ids)) == before;
      return Deleted, gone;
    }
  }
}
