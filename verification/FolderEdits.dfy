/** Deleting rows, moving folders, repairing orphans and searching, on table values (models/folders.py). */
module FolderEdits {
  import opened Lists
  import opened Folders
  import Names
  import ChatStore

  type Chat = ChatStore.Chat

  function KeptFrom(gone: set<string>): Folder -> bool { (r: Folder) => r.id !in gone }

  function Without(rows: seq<Folder>, gone: set<string>): seq<Folder> { Filter(rows, KeptFrom(gone)) }

  lemma {:induction false} WithoutTwice(rows: seq<Folder>, a: set<string>, b: set<string>)
    ensures Without(Without(rows, a), b) == Without(rows, a + b)
  {
    if rows != [] {
      WithoutTwice(rows[1..], a, b);
      var rest := Without(rows[1..], a);
      if rows[0].id !in a { assert ([rows[0]] + rest)[1..] == rest; }
    }
  }

  lemma {:induction false} WithoutNone(rows: seq<Folder>)
    ensures Without(rows, {}) == rows
  {
    if rows != [] { WithoutNone(rows[1..]); }
  }

  lemma {:induction false} ChildrenWithout(f: Forest, gone: set<string>, p: string)
    requires forall r :: r in f.Children(p) ==> r.id !in gone
    ensures Forest(Without(f.rows, gone), f.user).Children(p) == f.Children(p)
    decreases |f.rows|
  {
    if f.rows != [] {
      var g := Forest(f.rows[1..], f.user);
      ChildrenWithout(g, gone, p);
      var rest := Without(g.rows, gone);
      if f.rows[0].id !in gone { assert ([f.rows[0]] + rest)[1..] == rest; }
    }
  }

  /** `filter_by(id=id, user_id=user_id).first()`. */
  function Find(rows: seq<Folder>, id: string, user: string): (r: Option<Folder>)
    ensures r.Some? ==> r.value in rows && r.value.id == id && r.value.user == user
    ensures r.None? ==> forall x :: x in rows ==> !(x.id == id && x.user == user)
  {
    if rows == [] then None
    else if rows[0].id == id && rows[0].user == user then Some(rows[0])
    else Find(rows[1..], id, user)
  }

  predicate Matches(r: Folder, queries: seq<string>) {
    Names.Normalize(r.name) in Map(queries, Names.Normalize)
  }

  /** A folder matches when its words are those of a query, up to case. */
  lemma MatchesMeaning(r: Folder, queries: seq<string>)
    ensures Matches(r, queries) <==>
      exists q :: q in queries && Map(Names.Words(r.name), Names.Lower) == Map(Names.Words(q), Names.Lower)
  {
    forall q | q in queries ensures Names.Normalize(r.name) == Names.Normalize(q)
      <==> Map(Names.Words(r.name), Names.Lower) == Map(Names.Words(q), Names.Lower)
    {
      Names.NormalizeDecides(r.name, q);
    }
    var normal := Map(queries, Names.Normalize);
    if Matches(r, queries) {
      var i :| 0 <= i < |normal| && normal[i] == Names.Normalize(r.name);
      assert queries[i] in queries;
    }
    if q :| q in queries && Names.Normalize(q) == Names.Normalize(r.name) {
      var i :| 0 <= i < |queries| && queries[i] == q;
      assert normal[i] == Names.Normalize(q);
    }
  }

  /** What a search that has looked at the rows `part` has found. */
  ghost function FoundIn(f: Forest, queries: seq<string>, part: seq<Folder>): set<string> {
    set r, y | r in part && f.IsRow(r) && Matches(r, queries) && y in f.Tree(r.id) :: y
  }

  /** What one row contributes. */
  ghost function FoundAt(f: Forest, queries: seq<string>, r: Folder): set<string> {
    if r.user == f.user && Matches(r, queries) then f.Tree(r.id) else {}
  }

  lemma FoundStep(f: Forest, queries: seq<string>, i: nat)
    requires i < |f.rows|
    ensures FoundIn(f, queries, f.rows[..i + 1]) == FoundIn(f, queries, f.rows[..i]) + FoundAt(f, queries, f.rows[i])
  {
    assert forall r :: r in f.rows[..i + 1] <==> r in f.rows[..i] || r == f.rows[i] by {
      assert f.rows[..i + 1] == f.rows[..i] + [f.rows[i]];
    }
    assert f.IsRow(f.rows[i]) <==> f.rows[i].user == f.user;
  }

  /** A search finds exactly the matching folders and what lies below them. */
  lemma SearchMeaning(f: Forest, queries: seq<string>, y: string)
    ensures y in FoundIn(f, queries, f.rows)
      <==> exists r :: f.IsRow(r) && Matches(r, queries) && (y == r.id || f.IsBelow(r.id, y))
  {
    if r :| f.IsRow(r) && Matches(r, queries) && (y == r.id || f.IsBelow(r.id, y)) {
      if y != r.id { f.TreeClosed(r.id, r.id, y); }
      assert y in f.Tree(r.id);
    }
  }

  lemma SearchClosed(f: Forest, queries: seq<string>, y: string, c: string)
    requires f.IsChild(y, c) && y in FoundIn(f, queries, f.rows)
    ensures c in FoundIn(f, queries, f.rows)
  {
    var r :| r in f.rows && f.IsRow(r) && Matches(r, queries) && y in f.Tree(r.id);
    f.ChildBelow(y, c);
    f.TreeClosed(r.id, y, c);
  }

  /** `d[key] = ...` on an insertion-ordered dict of ids. */
  function Put(d: seq<string>, key: string): seq<string> { if key in d then d else d + [key] }

  method PutAll(d: seq<string>, keys: seq<string>) returns (r: seq<string>)
    requires NoDups(d)
    ensures NoDups(r) && Elements(r) == Elements(d) + Elements(keys)
  {
    r := d;
    for i := 0 to |keys|
      invariant NoDups(r) && Elements(r) == Elements(d) + Elements(keys[..i])
    {
      assert Elements(keys[..i + 1]) == Elements(keys[..i]) + {keys[i]} by {
        assert keys[..i + 1] == keys[..i] + [keys[i]];
      }
      assert Elements(r + [keys[i]]) == Elements(r) + {keys[i]};
      r := Put(r, keys[i]);
    }
    assert keys[..|keys|] == keys;
  }

  datatype Status = Deleted | NotFound | Forbidden

  predicate HasChats(chats: map<string, Chat>, user: string, id: string) {
    exists c :: c in chats && chats[c].owner == ChatStore.User(user) && chats[c].folder == Some(id)
  }

  function ChatsOutside(chats: map<string, Chat>, user: string, gone: set<string>): map<string, Chat> {
    map c | c in chats && !(ChatStore.Owns(chats, c, user) && chats[c].folder.Some? && chats[c].folder.value in gone)
      :: chats[c]
  }

  /** What a deletion lists: the folder, then everything below it, each once and lower ones first. */
  lemma DeletionOrder(f: Forest, id: string)
    requires f.UniqueIds() && f.AcyclicFrom(id)
    ensures Elements([id] + f.PostOrder(id)) == f.Tree(id) && NoDups([id] + f.PostOrder(id))
    ensures f.LowerFirst(f.PostOrder(id))
  {
    f.PostOrderElements(id, 0);
    f.TreesAll(id);
    f.PostOrderLowerFirst(id, 0);
    var below := f.PostOrder(id);
    assert forall i :: 0 <= i < |below| ==> below[i] in Elements(below);
    assert Elements([id] + below) == {id} + Elements(below);
  }

  /** Each pass of the cascade is the chat table's own deletion by folder. */
  lemma CascadePass(s: ChatStore.State, user: string, folder: string)
    ensures ChatStore.Next(s, ChatStore.DeleteInFolder(user, folder)).chats == ChatsOutside(s.chats, user, {folder})
  {
  }

  // ---------- no dangling references ----------

  /** Every folder and chat of the user that names a folder names one that exists. */
  ghost predicate NoDangling(f: Forest, chats: map<string, Chat>) {
    && (forall r :: f.IsRow(r) && r.parent.Some? && r.parent.value != "" ==> r.parent.value in f.Ids())
    && (forall c :: ChatStore.Owns(chats, c, f.user) && chats[c].folder.Some? ==> chats[c].folder.value in f.Ids())
  }

  lemma IdsWithout(f: Forest, gone: set<string>)
    ensures Forest(Without(f.rows, gone), f.user).Ids() == f.Ids() - gone
  {
    FilterMeaning(f.rows, KeptFrom(gone));
    var g := Forest(Without(f.rows, gone), f.user);
    forall y | y in f.Ids() - gone ensures y in g.Ids() {
      var r :| r in f.rows && r.user == f.user && r.id == y;
      assert r in g.rows;
    }
  }

  /** Deleting a folder with its cascade leaves nothing of the user's pointing at a deleted folder. */
  lemma CascadeLeavesNoDangling(f: Forest, chats: map<string, Chat>, id: string)
    requires NoDangling(f, chats)
    ensures NoDangling(Forest(Without(f.rows, f.Tree(id)), f.user), ChatsOutside(chats, f.user, f.Tree(id)))
  {
    var g := Forest(Without(f.rows, f.Tree(id)), f.user);
    IdsWithout(f, f.Tree(id));
    FilterMeaning(f.rows, KeptFrom(f.Tree(id)));
    forall r | g.IsRow(r) && r.parent.Some? && r.parent.value != "" ensures r.parent.value in g.Ids() {
      if r.parent.value in f.Tree(id) {
        assert f.IsEdge(r, r.parent.value, r.id);
        f.ChildBelow(r.parent.value, r.id);
        f.TreeClosed(id, r.parent.value, r.id);
        assert false;
      }
    }
  }

  // ---------- moving a folder ----------

  function Moved(rows: seq<Folder>, id: string, user: string, parent: Option<string>): seq<Folder> {
    seq(|rows|, i requires 0 <= i < |rows| =>
      if rows[i].id == id && rows[i].user == user then rows[i].(parent := parent) else rows[i])
  }

  /** Away from `id` the move changes no edge, in either direction. */
  lemma MovedEdges(f: Forest, id: string, parent: Option<string>, p: string, y: string)
    ensures var g := Forest(Moved(f.rows, id, f.user, parent), f.user);
      && (y != id ==> (g.IsChild(p, y) <==> f.IsChild(p, y)))
      && (y == id && id in f.Ids() ==> (g.IsChild(p, y) <==> parent == Some(p)))
  {
    var g := Forest(Moved(f.rows, id, f.user, parent), f.user);
    if y != id {
      if r :| f.IsEdge(r, p, y) { var i :| 0 <= i < |f.rows| && f.rows[i] == r; assert g.IsEdge(g.rows[i], p, y); }
      if r :| g.IsEdge(r, p, y) { var i :| 0 <= i < |g.rows| && g.rows[i] == r; assert f.IsEdge(f.rows[i], p, y); }
    } else if id in f.Ids() {
      var r :| r in f.rows && r.user == f.user && r.id == id;
      var i :| 0 <= i < |f.rows| && f.rows[i] == r;
      if parent == Some(p) { assert g.IsEdge(g.rows[i], p, y); }
      if q :| g.IsEdge(q, p, y) { var j :| 0 <= j < |g.rows| && g.rows[j] == q; }
    }
  }

  /** A path below `id` survives changing `id`'s own parent, up to where it first meets `id`. */
  lemma {:induction false} PathBelow(f: Forest, g: Forest, id: string, y: string, n: nat) returns (k: nat)
    requires forall p, z :: z != id && f.IsChild(p, z) ==> g.IsChild(p, z)
    requires f.Reaches(id, y, n)
    ensures k <= n && g.Reaches(id, y, k)
    decreases n
  {
    if y == id {
      k := 0;
    } else {
      var p :| f.IsChild(p, y) && f.Reaches(id, p, n - 1);
      var m := PathBelow(f, g, id, p, n - 1);
      k := m + 1;
    }
  }

  /** A path after the move is a path before it, or goes through `id`. */
  lemma {:induction false} PathThrough(g: Forest, f: Forest, id: string, x: string, y: string, n: nat) returns (m: nat)
    requires forall p, z :: z != id && g.IsChild(p, z) ==> f.IsChild(p, z)
    requires g.Reaches(x, y, n)
    ensures f.Reaches(x, y, n) || (m < n && g.Reaches(id, y, m) && g.Reaches(x, id, n - m))
    decreases n
  {
    m := 0;
    if n > 0 && y != id {
      var p :| g.IsChild(p, y) && g.Reaches(x, p, n - 1);
      m := PathThrough(g, f, id, x, p, n - 1);
      if !f.Reaches(x, p, n - 1) { m := m + 1; }
    }
  }

  /** Moving a folder keeps the table acyclic exactly when the new parent is neither the folder nor below it. */
  lemma MoveKeepsAcyclic(f: Forest, id: string, parent: Option<string>)
    requires f.Acyclic() && id in f.Ids()
    ensures Forest(Moved(f.rows, id, f.user, parent), f.user).Acyclic()
      <==> parent.None? || (parent.value != id && !f.IsBelow(id, parent.value))
  {
    var g := Forest(Moved(f.rows, id, f.user, parent), f.user);
    forall p, y
      ensures (y != id ==> (g.IsChild(p, y) <==> f.IsChild(p, y)))
           && (y == id ==> (g.IsChild(p, y) <==> parent == Some(p)))
    {
      MovedEdges(f, id, parent, p, y);
    }
    if parent.Some? && (parent.value == id || f.IsBelow(id, parent.value)) {
      MoveBelowSelf(f, g, id, parent.value);
    }
    if x :| g.IsBelow(x, x) {
      CycleAfterMove(f, g, id, parent, x);
    }
  }

  lemma MoveBelowSelf(f: Forest, g: Forest, id: string, p: string)
    requires forall q, y :: y != id && f.IsChild(q, y) ==> g.IsChild(q, y)
    requires g.IsChild(p, id) && (p == id || f.IsBelow(id, p))
    ensures g.IsBelow(id, id)
  {
    var n: nat := 0;
    if p != id { n :| n >= 1 && f.Reaches(id, p, n); }
    var k := PathBelow(f, g, id, p, n);
    assert g.Reaches(id, id, k + 1);
  }

  lemma CycleAfterMove(f: Forest, g: Forest, id: string, parent: Option<string>, x: string)
    requires f.Acyclic() && g.IsBelow(x, x)
    requires forall p, y :: y != id ==> (g.IsChild(p, y) <==> f.IsChild(p, y))
    requires forall p :: g.IsChild(p, id) <==> parent == Some(p)
    ensures parent.Some? && (parent.value == id || f.IsBelow(id, parent.value))
  {
    var n :| n >= 1 && g.Reaches(x, x, n);
    var m := PathThrough(g, f, id, x, x, n);
    assert !f.IsBelow(x, x);
    g.Chain(id, x, id, m, n - m);
    var p :| g.IsChild(p, id) && g.Reaches(id, p, n - 1);
    var k := PathBelow(g, f, id, p, n - 1);
    assert k == 0 ==> p == id;
  }

  // ---------- repairing orphans ----------

  predicate Orphan(f: Forest, r: Folder) {
    r.parent.Some? && r.parent.value != "" && Find(f.rows, r.parent.value, f.user).None?
  }

  function RepairedTo(f: Forest, i: nat): seq<Folder> {
    seq(|f.rows|, j requires 0 <= j < |f.rows| =>
      if j < i && f.rows[j].user == f.user && Orphan(f, f.rows[j]) then f.rows[j].(parent := None) else f.rows[j])
  }

  function Repaired(f: Forest): seq<Folder> { RepairedTo(f, |f.rows|) }

  lemma FindExactly(f: Forest, id: string)
    ensures Find(f.rows, id, f.user).Some? <==> id in f.Ids()
  {
  }

  lemma RepairedIds(f: Forest, i: nat)
    ensures Forest(RepairedTo(f, i), f.user).Ids() == f.Ids()
  {
    var g := Forest(RepairedTo(f, i), f.user);
    forall r | f.IsRow(r) ensures r.id in g.Ids() {
      var j :| 0 <= j < |f.rows| && f.rows[j] == r;
      assert g.rows[j] in g.rows;
    }
    forall r | g.IsRow(r) ensures r.id in f.Ids() {
      var j :| 0 <= j < |g.rows| && g.rows[j] == r;
      assert f.rows[j] in f.rows;
    }
  }

  /** Repairs do not change which parents exist, so each folder is judged as at the start. */
  lemma SameLookup(f: Forest, i: nat, r: Folder)
    requires f.UniqueIds() && i < |f.rows| && r == f.rows[i]
    ensures Orphan(Forest(RepairedTo(f, i), f.user), r) == Orphan(f, r)
    ensures RepairedTo(f, i + 1) ==
      if r.user == f.user && Orphan(f, r) then Moved(RepairedTo(f, i), r.id, f.user, None) else RepairedTo(f, i)
  {
    var g := Forest(RepairedTo(f, i), f.user);
    RepairedIds(f, i);
    if r.parent.Some? {
      FindExactly(f, r.parent.value);
      FindExactly(g, r.parent.value);
    }
    forall j | 0 <= j < |f.rows| ensures f.rows[j].id == r.id ==> j == i {
      assert j < i ==> f.rows[j].id != f.rows[i].id;
    }
  }

  /** After the repair no folder names a missing parent, and a table without orphans is left as it was. */
  lemma RepairMeaning(f: Forest)
    ensures var g := Forest(Repaired(f), f.user);
      && NoDangling(g, map[])
      && (NoDangling(f, map[]) <==> Repaired(f) == f.rows)
      && (f.Acyclic() ==> g.Acyclic())
  {
    var g := Forest(Repaired(f), f.user);
    RepairedIds(f, |f.rows|);
    forall r | g.IsRow(r) && r.parent.Some? && r.parent.value != "" ensures r.parent.value in g.Ids() {
      var j :| 0 <= j < |g.rows| && g.rows[j] == r;
      FindExactly(f, r.parent.value);
    }
    forall j | 0 <= j < |f.rows| && f.IsRow(f.rows[j]) && f.rows[j].parent.Some? ensures Orphan(f, f.rows[j])
      <==> f.rows[j].parent.value != "" && f.rows[j].parent.value !in f.Ids()
    {
      FindExactly(f, f.rows[j].parent.value);
    }
    if f.Acyclic() {
      forall p, y | g.IsChild(p, y) ensures f.IsChild(p, y) {
        var r :| g.IsEdge(r, p, y);
        var j :| 0 <= j < |g.rows| && g.rows[j] == r;
        assert f.IsEdge(f.rows[j], p, y);
      }
      forall x ensures !g.IsBelow(x, x) {
        if n :| n >= 1 && g.Reaches(x, x, n) { FewerEdges(g, f, x, x, n); assert f.IsBelow(x, x); }
      }
    }
  }

  /** The repair moves exactly the user's folders with a missing parent to the top level and changes nothing else. */
  lemma RepairExactly(f: Forest, j: nat)
    requires j < |f.rows|
    ensures |Repaired(f)| == |f.rows|
    ensures var r := f.rows[j];
      Repaired(f)[j] == if r.user == f.user && r.parent.Some? && r.parent.value != "" && r.parent.value !in f.Ids()
                        then Folder(r.id, r.user, None, r.name) else r
  {
    if f.rows[j].parent.Some? { FindExactly(f, f.rows[j].parent.value); }
  }

  /** A move sets the parent of the user's folder of that id and changes nothing else. */
  lemma MoveExactly(f: Forest, id: string, parent: Option<string>, j: nat)
    requires j < |f.rows|
    ensures |Moved(f.rows, id, f.user, parent)| == |f.rows|
    ensures var r := f.rows[j];
      Moved(f.rows, id, f.user, parent)[j] ==
        if r.user == f.user && r.id == id then Folder(r.id, r.user, parent, r.name) else r
  {
  }

  lemma {:induction false} FewerEdges(g: Forest, f: Forest, x: string, y: string, n: nat)
    requires (forall p, z :: g.IsChild(p, z) ==> f.IsChild(p, z)) && g.Reaches(x, y, n)
    ensures f.Reaches(x, y, n)
    decreases n
  {
    if n > 0 {
      var p :| g.IsChild(p, y) && g.Reaches(x, p, n - 1);
      FewerEdges(g, f, x, p, n - 1);
    }
  }
}
