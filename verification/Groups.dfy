/** Group membership (models/groups.py). */
module Groups {
  import opened Lists

  /** One group row; the user_ids column may be null. */
  datatype Group = Group(name: string, users: Option<seq<string>>)

  function Empty(name: string): Group { Group(name, Some([])) }

  function Members(g: Group): seq<string> { if g.users.Some? then g.users.value else [] }

  function Other(user: string): string -> bool { (u: string) => u != user }

  /** Removing one user leaves the others as they are, and the user gone unless listed twice. */
  lemma {:induction false} RemoveFirstMeaning(s: seq<string>, x: string)
    ensures Filter(RemoveFirst(s, x), Other(x)) == Filter(s, Other(x))
    ensures x in RemoveFirst(s, x) <==> multiset(s)[x] >= 2
    ensures forall u :: u in RemoveFirst(s, x) ==> u in s
    ensures NoDups(s) ==> NoDups(RemoveFirst(s, x)) && x !in RemoveFirst(s, x)
  {
    if s != [] {
      assert s == [s[0]] + s[1..];
      if s[0] != x {
        RemoveFirstMeaning(s[1..], x);
        assert ([s[0]] + RemoveFirst(s[1..], x))[1..] == RemoveFirst(s[1..], x);
        if NoDups(s) { PrependNoDups(s[0], RemoveFirst(s[1..], x), s[1..]); }
      }
    }
  }

  lemma PrependNoDups(y: string, t: seq<string>, s: seq<string>)
    requires NoDups([y] + s) && NoDups(t) && forall u :: u in t ==> u in s
    ensures NoDups([y] + t)
  {
    forall i | 0 <= i < |t| ensures t[i] != y {
      assert t[i] in t && t[i] in s;
      var j :| 0 <= j < |s| && s[j] == t[i];
      assert ([y] + s)[j + 1] == s[j] && ([y] + s)[0] == y;
    }
  }

  lemma AppendMeaning(s: seq<string>, x: string)
    ensures Filter(s + [x], Other(x)) == Filter(s, Other(x))
  {
    FilterConcat(s, [x], Other(x));
    assert Filter([x], Other(x)) == [];
    assert Filter(s, Other(x)) + [] == Filter(s, Other(x));
  }

  function Left(g: Group, user: string): Group {
    if user in Members(g) then g.(users := Some(RemoveFirst(Members(g), user))) else g
  }

  function Joined(g: Group, user: string): Group {
    if user in Members(g) then g else g.(users := Some(Members(g) + [user]))
  }

  function Synced(g: Group, user: string, names: seq<string>): Group {
    if g.name in names then Joined(g, user) else Left(g, user)
  }

  /** Every other member keeps its place. */
  ghost predicate SameOthers(g: Group, h: Group, user: string) {
    Filter(Members(h), Other(user)) == Filter(Members(g), Other(user))
  }

  class GroupTable {
    var rows: map<string, Group>

    constructor (rows: map<string, Group>)
      ensures this.rows == rows
    {
      this.rows := rows;
    }

    /** get_groups_by_member_id: the ids of the groups that list the user. */
    function GroupsOf(user: string): set<string> reads this {
      set id | id in rows && user in Members(rows[id])
    }

    /** sync_groups_by_group_names; false, and nothing changed, when a listed group has no member list. */
    method SyncGroups(user: string, names: seq<string>) returns (ok: bool)
      modifies this
      ensures ok <==> ListsKnown(old(rows), names)
      ensures !ok ==> rows == old(rows)
      ensures ok ==> rows == map id | id in old(rows) :: Synced(old(rows)[id], user, names)
    {
      ghost var was := rows;
      var listed := set id | id in rows && rows[id].name in names;
      if exists id :: id in listed && rows[id].users.None? { return false; }
      var leaving := GroupsOf(user) - listed;
      var todo := leaving;
      while todo != {}
        invariant todo <= leaving
        invariant rows == map id | id in was :: if id in leaving - todo then Left(was[id], user) else was[id]
      {
        var id :| id in todo;
        rows := rows[id := rows[id].(users := Some(RemoveFirst(Members(rows[id]), user)))];
        todo := todo - {id};
      }
      todo := listed;
      while todo != {}
        invariant todo <= listed
        invariant rows == map id | id in was ::
          if id in listed - todo then Joined(was[id], user) else if id in leaving then Left(was[id], user) else was[id]
      {
        var id :| id in todo;
        if user !in Members(rows[id]) {
          rows := rows[id := rows[id].(users := Some(Members(rows[id]) + [user]))];
        }
        todo := todo - {id};
      }
      return true;
    }

    /** create_groups_by_group_names; `ids` are the fresh ids it draws. Reading the groups fails, before anything is
        created, when one of them has no member list. */
    method CreateGroups(names: seq<string>, ids: seq<string>) returns (ok: bool)
      requires |ids| == |names| && NoDups(ids) && forall id :: id in ids ==> id !in rows
      modifies this
      ensures ok <==> AllKnown(old(rows))
      ensures if ok then GroupsCreated(old(rows), rows, names, ids) else rows == old(rows)
    {
      if id :| id in rows && rows[id].users.None? { return false; }
      var existing := set id | id in rows :: rows[id].name;
      for i := 0 to |names|
        invariant forall id :: id in old(rows) ==> id in rows && rows[id] == old(rows)[id]
        invariant forall id :: id in rows && id !in old(rows) ==>
          exists j: nat :: j < i && Created(names, ids, old(rows), id, j) && rows[id] == Empty(names[j])
        invariant forall j :: 0 <= j < i && !HasName(old(rows), names[j]) ==>
          ids[j] in rows && rows[ids[j]] == Empty(names[j])
      {
        assert ids[i] in ids;
        if names[i] !in existing {
          assert Created(names, ids, old(rows), ids[i], i);
          rows := rows[ids[i] := Empty(names[i])];
        }
      }
      return true;
    }

    /** add_users_to_group: a duplicate-free list of the old members and the new ones. */
    method AddUsers(id: string, users: Option<seq<string>>) returns (done: bool)
      modifies this
      ensures done == (id in old(rows) && users.Some?)
      ensures !done ==> rows == old(rows)
      ensures done ==> OnlyMembers(old(rows), rows, id) && NoDups(Members(rows[id]))
      ensures done ==> Elements(Members(rows[id])) == Elements(Members(old(rows)[id])) + Elements(users.value)
    {
      if id !in rows || users.None? { return false; }
      var list := Deduplicate(Members(rows[id]));
      for i := 0 to |users.value|
        invariant rows == old(rows) && NoDups(list)
        invariant Elements(list) == Elements(Members(rows[id])) + Elements(users.value[..i])
      {
        assert users.value[..i + 1] == users.value[..i] + [users.value[i]];
        assert Elements(list + [users.value[i]]) == Elements(list) + {users.value[i]};
        assert Elements(users.value[..i + 1]) == Elements(users.value[..i]) + {users.value[i]};
        if users.value[i] !in list { list := list + [users.value[i]]; }
      }
      assert users.value[..|users.value|] == users.value;
      rows := rows[id := rows[id].(users := Some(list))];
      return true;
    }

    /** remove_users_from_group: a group without member list cannot be returned, an empty list is left as it is, and
        otherwise a null argument fails. */
    method RemoveUsers(id: string, argument: Option<seq<string>>) returns (done: bool)
      modifies this
      ensures done == (id in old(rows) && old(rows)[id].users.Some?
                       && (argument.Some? || Members(old(rows)[id]) == []))
      ensures !done ==> rows == old(rows)
      ensures done ==> OnlyMembers(old(rows), rows, id) && NoDups(Members(rows[id]))
      ensures done ==>
        var users := if argument.Some? then argument.value else [];
        Elements(Members(rows[id])) == Elements(Members(old(rows)[id])) - Elements(users)
    {
      if id !in rows || rows[id].users.None? { return false; }
      if Members(rows[id]) == [] { return true; }
      if argument.None? { return false; }
      var users := argument.value;
      var list := Deduplicate(Members(rows[id]));
      for i := 0 to |users|
        invariant rows == old(rows) && NoDups(list)
        invariant Elements(list) == Elements(Members(rows[id])) - Elements(users[..i])
      {
        assert users[..i + 1] == users[..i] + [users[i]];
        assert Elements(users[..i + 1]) == Elements(users[..i]) + {users[i]};
        RemovedElements(list, users[i]);
        if users[i] in list { list := RemoveFirst(list, users[i]); }
      }
      assert users[..|users|] == users;
      rows := rows[id := rows[id].(users := Some(list))];
      return true;
    }

    /** remove_user_from_all_groups. */
    method RemoveFromAll(user: string)
      modifies this
      ensures rows == map id | id in old(rows) :: Left(old(rows)[id], user)
    {
      ghost var was := rows;
      var groups := GroupsOf(user);
      var todo := groups;
      while todo != {}
        invariant todo <= groups
        invariant rows == map id | id in was :: if id in groups - todo then Left(was[id], user) else was[id]
      {
        var id :| id in todo;
        rows := rows[id := rows[id].(users := Some(RemoveFirst(Members(rows[id]), user)))];
        todo := todo - {id};
      }
    }
  }

  /** Nothing but that group's member list differs. */
  ghost predicate OnlyMembers(before: map<string, Group>, after: map<string, Group>, id: string) {
    id in before && id in after && after == before[id := after[id]] && after[id].name == before[id].name
  }

  ghost predicate HasName(rows: map<string, Group>, name: string) { exists id :: id in rows && rows[id].name == name }

  ghost predicate Created(names: seq<string>, ids: seq<string>, rows: map<string, Group>, id: string, i: nat) {
    i < |names| == |ids| && ids[i] == id && !HasName(rows, names[i])
  }

  /** `list(set(s))`. */
  method Deduplicate(s: seq<string>) returns (r: seq<string>)
    ensures NoDups(r) && Elements(r) == Elements(s)
  {
    r := [];
    for i := 0 to |s|
      invariant NoDups(r) && Elements(r) == Elements(s[..i])
    {
      assert s[..i + 1] == s[..i] + [s[i]];
      assert Elements(s[..i + 1]) == Elements(s[..i]) + {s[i]};
      assert Elements(r + [s[i]]) == Elements(r) + {s[i]};
      if s[i] !in r { r := r + [s[i]]; }
    }
    assert s[..|s|] == s;
  }

  lemma {:induction false} RemovedElements(s: seq<string>, x: string)
    requires NoDups(s)
    ensures Elements(RemoveFirst(s, x)) == Elements(s) - {x} && NoDups(RemoveFirst(s, x))
  {
    RemoveFirstMeaning(s, x);
    forall u | u in s && u != x ensures u in RemoveFirst(s, x) {
      FilterMeaning(s, Other(x));
      FilterMeaning(RemoveFirst(s, x), Other(x));
    }
  }

  /** After a sync the user is in exactly the listed groups, lists stay duplicate-free, and nobody else is affected. */
  lemma SyncMeaning(g: Group, user: string, names: seq<string>)
    ensures var h := Synced(g, user, names);
      && h.name == g.name && SameOthers(g, h, user)
      && (NoDups(Members(g)) ==> NoDups(Members(h)) && (user in Members(h) <==> g.name in names))
      && (g.name !in names ==> (user in Members(h) <==> multiset(Members(g))[user] >= 2))
      && (g.name in names ==> Members(g) <= Members(h) && |Members(h)| <= |Members(g)| + 1)
      && ((user in Members(g)) == (g.name in names) ==> h == g)
  {
    RemoveFirstMeaning(Members(g), user);
    AppendMeaning(Members(g), user);
    assert multiset(Members(g))[user] >= 2 ==> user in Members(g);
  }

  /** The condition under which a sync succeeds. */
  ghost predicate ListsKnown(rows: map<string, Group>, names: seq<string>) {
    forall id :: id in rows && rows[id].name in names ==> rows[id].users.Some?
  }

  /** After the sync some group of that name has the user in it. */
  ghost predicate JoinsOne(rows: map<string, Group>, user: string, names: seq<string>, name: string) {
    exists id :: id in rows && rows[id].name == name && user in Members(Synced(rows[id], user, names))
  }

  ghost predicate AllKnown(rows: map<string, Group>) { forall id :: id in rows ==> rows[id].users.Some? }

  /** The old groups are as they were, and there is an empty one for each listed name that none of them had. */
  ghost predicate GroupsCreated(before: map<string, Group>, rows: map<string, Group>, names: seq<string>,
                                ids: seq<string>)
  {
    && |ids| == |names|
    && (forall id :: id in before ==> id in rows && rows[id] == before[id])
    && (forall id :: id in rows && id !in before ==>
          exists i: nat :: Created(names, ids, before, id, i) && rows[id] == Empty(names[i]))
    && (forall i :: 0 <= i < |names| && !HasName(before, names[i]) ==>
          ids[i] in rows && rows[ids[i]] == Empty(names[i]))
  }

  /** Where the creation goes through, that is where every group has a member list, the sync after it succeeds and puts
      the user in a group of every listed name. */
  lemma CreateThenSync(before: map<string, Group>, rows: map<string, Group>, ids: seq<string>, user: string,
                       names: seq<string>)
    requires AllKnown(before) && GroupsCreated(before, rows, names, ids)
    ensures ListsKnown(rows, names)
    ensures forall i :: 0 <= i < |names| ==> JoinsOne(rows, user, names, names[i])
  {
    forall i | 0 <= i < |names| ensures JoinsOne(rows, user, names, names[i]) {
      var id: string := ids[i];
      if HasName(before, names[i]) { id :| id in before && before[id].name == names[i]; }
      assert rows[id].name == names[i] && rows[id].name in names;
    }
  }
}
