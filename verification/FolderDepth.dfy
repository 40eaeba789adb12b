/** Recursions over the folder table that delete from it as they go, or run out of depth (models/folders.py). */
module FolderDepth {
  import opened Lists
  import opened Folders
  import opened FolderEdits

  ghost function Cut(f: Forest, gone: set<string>): Forest { Forest(Without(f.rows, gone), f.user) }

  /** With a folder everything below it is gone, and nothing gone leads to a cycle. */
  ghost predicate Removable(f: Forest, gone: set<string>) {
    && (forall y :: y in gone ==> f.AcyclicFrom(y))
    && (forall y, z :: y in gone && f.IsBelow(y, z) ==> z in gone)
  }

  lemma ChildCut(f: Forest, gone: set<string>, p: string, y: string)
    ensures Cut(f, gone).IsChild(p, y) <==> f.IsChild(p, y) && y !in gone
  {
    FilterMeaning(f.rows, KeptFrom(gone));
    if r :| f.IsEdge(r, p, y) && y !in gone { assert Cut(f, gone).IsEdge(r, p, y); }
    if r :| Cut(f, gone).IsEdge(r, p, y) { assert f.IsEdge(r, p, y); }
  }

  lemma {:induction false} ReachesCut(f: Forest, gone: set<string>, x: string, y: string, n: nat)
    requires Removable(f, gone) && y !in gone && f.Reaches(x, y, n)
    ensures Cut(f, gone).Reaches(x, y, n)
    decreases n
  {
    if n > 0 {
      var p :| f.IsChild(p, y) && f.Reaches(x, p, n - 1);
      f.ChildBelow(p, y);
      ReachesCut(f, gone, x, p, n - 1);
      ChildCut(f, gone, p, y);
    }
  }

  lemma BelowCut(f: Forest, gone: set<string>, x: string, y: string)
    requires Removable(f, gone)
    ensures Cut(f, gone).IsBelow(x, y) ==> f.IsBelow(x, y)
    ensures f.IsBelow(x, y) && y !in gone ==> Cut(f, gone).IsBelow(x, y)
  {
    var g := Cut(f, gone);
    forall p, z ensures g.IsChild(p, z) ==> f.IsChild(p, z) { ChildCut(f, gone, p, z); }
    if n :| n >= 1 && g.Reaches(x, y, n) { FewerEdges(g, f, x, y, n); }
    if y !in gone {
      if n :| n >= 1 && f.Reaches(x, y, n) { ReachesCut(f, gone, x, y, n); }
    }
  }

  /** Removing such folders neither breaks nor makes a cycle. */
  lemma AcyclicCut(f: Forest, gone: set<string>, x: string)
    requires Removable(f, gone)
    ensures Cut(f, gone).AcyclicFrom(x) <==> f.AcyclicFrom(x)
  {
    var g := Cut(f, gone);
    if !f.AcyclicFrom(x) {
      var y :| (y == x || f.IsBelow(x, y)) && f.IsBelow(y, y);
      assert y !in gone;
      BelowCut(f, gone, x, y);
      BelowCut(f, gone, y, y);
      assert (y == x || g.IsBelow(x, y)) && g.IsBelow(y, y);
    }
    if !g.AcyclicFrom(x) {
      var y :| (y == x || g.IsBelow(x, y)) && g.IsBelow(y, y);
      BelowCut(f, gone, x, y);
      BelowCut(f, gone, y, y);
      assert (y == x || f.IsBelow(x, y)) && f.IsBelow(y, y);
    }
  }

  lemma UniqueCut(f: Forest, gone: set<string>)
    requires f.UniqueIds()
    ensures Cut(f, gone).UniqueIds()
  {
    UniqueWithout(f.rows, gone);
  }

  lemma {:induction false} UniqueWithout(rows: seq<Folder>, gone: set<string>)
    requires Forest(rows, "").UniqueIds()
    ensures Forest(Without(rows, gone), "").UniqueIds()
  {
    if rows != [] {
      UniqueWithout(rows[1..], gone);
      FilterMeaning(rows[1..], KeptFrom(gone));
      var rest := Without(rows[1..], gone);
      forall j | 0 <= j < |rest| ensures rest[j].id != rows[0].id { assert rest[j] in rows[1..]; }
    }
  }

  // ---------- a subtree that nothing is removed from ----------

  lemma ChildrenApart(f: Forest, gone: set<string>, c: string)
    requires f.UniqueIds() && gone !! f.Tree(c)
    ensures Cut(f, gone).Children(c) == f.Children(c)
    ensures forall d :: f.IsChild(c, d) ==> gone !! f.Tree(d)
  {
    f.ChildrenMeaning(c);
    forall d | f.IsChild(c, d) ensures gone !! f.Tree(d) {
      f.ChildBelow(c, d);
      forall y | y in f.Tree(d) ensures y in f.Tree(c) { if y != d { f.BelowTrans(c, d, y); } }
    }
    forall r | r in f.Children(c) ensures r.id !in gone {
      var i :| 0 <= i < |f.Children(c)| && f.Children(c)[i] == r;
      assert r.id in f.Tree(r.id);
    }
    ChildrenWithout(f, gone, c);
  }

  lemma {:induction false} FitsApart(f: Forest, gone: set<string>, c: string, limit: nat)
    requires f.UniqueIds() && gone !! f.Tree(c)
    ensures Cut(f, gone).Fits(c, limit) <==> f.Fits(c, limit)
    decreases limit
  {
    ChildrenApart(f, gone, c);
    forall d ensures Cut(f, gone).IsChild(c, d) <==> f.IsChild(c, d) {
      ChildCut(f, gone, c, d);
      if f.IsChild(c, d) { assert d in f.Tree(d); }
    }
    if limit > 0 {
      forall d | f.IsChild(c, d) ensures Cut(f, gone).Fits(d, limit - 1) <==> f.Fits(d, limit - 1) {
        FitsApart(f, gone, d, limit - 1);
      }
    }
  }

  lemma ChildApart(f: Forest, gone: set<string>, c: string)
    requires f.UniqueIds() && gone !! f.Tree(c)
    ensures Cut(f, gone).Children(c) == f.Children(c)
    ensures forall i :: 0 <= i < |f.Children(c)| ==> gone !! f.Tree(f.Children(c)[i].id)
  {
    ChildrenApart(f, gone, c);
    f.ChildrenMeaning(c);
  }

  lemma {:induction false} OrderApart(f: Forest, gone: set<string>, c: string, limit: nat, i: nat)
    requires f.UniqueIds() && gone !! f.Tree(c) && i <= |f.Children(c)|
    ensures Cut(f, gone).Children(c) == f.Children(c)
    ensures Cut(f, gone).OrderFrom(c, limit, i) == f.OrderFrom(c, limit, i)
    decreases limit, |f.Children(c)| - i
  {
    ChildApart(f, gone, c);
    if limit > 0 && i < |f.Children(c)| {
      var d := f.Children(c)[i].id;
      OrderApart(f, gone, d, limit - 1, 0);
      OrderApart(f, gone, c, limit, i + 1);
      var g := Cut(f, gone);
      assert g.OrderFrom(c, limit, i) == g.OrderFrom(d, limit - 1, 0) + [d] + g.OrderFrom(c, limit, i + 1);
    }
  }

  lemma DescendantsApart(f: Forest, gone: set<string>, c: string)
    requires Removable(f, gone) && gone !! f.Tree(c)
    ensures Cut(f, gone).Descendants(c) == f.Descendants(c)
  {
    IdsWithout(f, gone);
    forall y ensures y in Cut(f, gone).Descendants(c) <==> y in f.Descendants(c) { BelowCut(f, gone, c, y); }
  }

  // ---------- the loop over the children of one folder ----------

  ghost function TreesTo(f: Forest, p: string, i: nat): set<string> requires i <= |f.Children(p)| {
    set y | y in f.Ids() && exists j :: 0 <= j < i && y in f.Tree(f.Children(p)[j].id)
  }

  /** The first `i` children are gone with all that lies below them; the trees still to be taken are whole. */
  ghost predicate Turn(f: Forest, p: string, i: nat, gone: set<string>) {
    && i <= |f.Children(p)| && gone == TreesTo(f, p, i) && Removable(f, gone)
    && forall j :: i <= j < |f.Children(p)| && f.AcyclicFrom(f.Children(p)[j].id) ==>
         gone !! f.Tree(f.Children(p)[j].id)
  }

  lemma FirstTurn(f: Forest, p: string)
    ensures Turn(f, p, 0, {})
  {
  }

  /** The child is judged in what is left of the table as in the whole one, and its tree is the same. */
  lemma ChildTurn(f: Forest, p: string, i: nat, gone: set<string>, limit: nat)
    requires f.UniqueIds() && i < |f.Children(p)| && Turn(f, p, i, gone)
    ensures var c := f.Children(p)[i].id;
      && (Cut(f, gone).Fits(c, limit) <==> f.Fits(c, limit))
      && (f.Fits(c, limit) ==> Cut(f, gone).Descendants(c) == f.Descendants(c))
      && (f.Fits(c, limit) ==> Cut(f, gone).OrderFrom(c, limit, 0) == f.OrderFrom(c, limit, 0))
  {
    var c := f.Children(p)[i].id;
    if f.AcyclicFrom(c) {
      FitsApart(f, gone, c, limit);
      DescendantsApart(f, gone, c);
      OrderApart(f, gone, c, limit, 0);
    } else {
      AcyclicCut(f, gone, c);
      Cut(f, gone).FitsExactly(c, limit);
      f.FitsExactly(c, limit);
    }
  }

  lemma NextTurn(f: Forest, p: string, i: nat, gone: set<string>)
    requires f.UniqueIds() && i < |f.Children(p)| && Turn(f, p, i, gone) && f.AcyclicFrom(f.Children(p)[i].id)
    ensures Turn(f, p, i + 1, gone + f.Tree(f.Children(p)[i].id))
  {
    var c := f.Children(p)[i].id;
    f.ChildrenMeaning(p);
    f.ChildBelow(p, c);
    assert TreesTo(f, p, i + 1) == TreesTo(f, p, i) + f.Tree(c);
    TreeRemovable(f, c);
    forall j | i + 1 <= j < |f.Children(p)| && f.AcyclicFrom(f.Children(p)[j].id)
      ensures gone + f.Tree(c) !! f.Tree(f.Children(p)[j].id)
    {
      f.SiblingsDisjoint(p, c, f.Children(p)[j].id);
    }
  }

  lemma TreeRemovable(f: Forest, c: string)
    requires f.AcyclicFrom(c)
    ensures Removable(f, f.Tree(c))
  {
    forall y, z | y in f.Tree(c) && f.IsBelow(y, z) ensures z in f.Tree(c) && f.IsBelow(c, z) {
      f.TreeClosed(c, y, z);
      if y != c { f.BelowTrans(c, y, z); }
    }
  }

  /** All children done: what is gone is what lies below. */
  lemma LastTurn(f: Forest, p: string, gone: set<string>, limit: nat)
    requires f.UniqueIds() && Turn(f, p, |f.Children(p)|, gone) && limit > 0
    requires forall j :: 0 <= j < |f.Children(p)| ==> f.Fits(f.Children(p)[j].id, limit - 1)
    ensures f.Fits(p, limit) && gone == f.Descendants(p)
  {
    f.ChildrenMeaning(p);
    f.FitsAcyclic(p, limit);
    f.TreesAll(p);
    assert TreesTo(f, p, |f.Children(p)|) == f.TreesFrom(p, 0);
  }

  lemma TreesBelow(f: Forest, p: string, i: nat)
    requires f.UniqueIds() && i <= |f.Children(p)|
    ensures TreesTo(f, p, i) <= f.Descendants(p)
  {
    f.ChildrenMeaning(p);
    forall y | y in TreesTo(f, p, i) ensures y in f.Descendants(p) {
      var j :| 0 <= j < i && y in f.Tree(f.Children(p)[j].id);
      f.ChildBelow(p, f.Children(p)[j].id);
      if y != f.Children(p)[j].id { f.BelowTrans(p, f.Children(p)[j].id, y); }
    }
  }

  /** A child's recursion ran out of depth after removing `more`. */
  lemma BrokenOff(f: Forest, p: string, i: nat, gone: set<string>, more: set<string>)
    requires f.UniqueIds() && i < |f.Children(p)| && Turn(f, p, i, gone)
    requires Removable(Cut(f, gone), more) && more <= Cut(f, gone).Descendants(f.Children(p)[i].id)
    ensures Removable(f, gone + more) && gone + more <= f.Descendants(p)
  {
    var c := f.Children(p)[i].id;
    f.ChildrenMeaning(p);
    f.ChildBelow(p, c);
    TreesBelow(f, p, i);
    IdsWithout(f, gone);
    forall y | y in more ensures y in f.Descendants(p) && f.AcyclicFrom(y) {
      BelowCut(f, gone, c, y);
      f.BelowTrans(p, c, y);
      AcyclicCut(f, gone, y);
    }
    forall y, z | y in more && f.IsBelow(y, z) ensures z in gone + more { BelowCut(f, gone, y, z); }
  }

  // ---------- what a deletion takes ----------

  /** What the loop over the children of `p` ends up with from the `i`-th on, when `gone` is gone already, and whether
      it ends without running out of calls. */
  ghost function TakenFrom(f: Forest, p: string, limit: nat, i: nat, gone: set<string>): (set<string>, bool)
    requires i <= |f.Children(p)|
    decreases limit, |f.Children(p)| - i
  {
    if limit == 0 then (gone, false)
    else if i == |f.Children(p)| then (gone, true)
    else
      var c := f.Children(p)[i].id;
      var below := Taken(Cut(f, gone), c, limit - 1);
      if below.1 then TakenFrom(f, p, limit, i + 1, gone + below.0 + {c}) else (gone + below.0, false)
  }

  ghost function Taken(f: Forest, p: string, limit: nat): (set<string>, bool)
    decreases limit, |f.Children(p)| + 1
  {
    TakenFrom(f, p, limit, 0, {})
  }

  lemma TakenUnfold(f: Forest, p: string, limit: nat, i: nat, gone: set<string>)
    requires i < |f.Children(p)| && limit > 0
    ensures var c := f.Children(p)[i].id; var below := Taken(Cut(f, gone), c, limit - 1);
      TakenFrom(f, p, limit, i, gone) ==
        if below.1 then TakenFrom(f, p, limit, i + 1, gone + below.0 + {c}) else (gone + below.0, false)
  {
  }

  /** The deletion succeeds exactly when the recursion fits and then takes all that lies below; else it takes whole
      trees without cycles from below. */
  lemma TakenMeaning(f: Forest, p: string, limit: nat)
    requires f.UniqueIds()
    ensures Taken(f, p, limit).1 <==> f.Fits(p, limit)
    ensures Taken(f, p, limit).1 ==> Taken(f, p, limit).0 == f.Descendants(p)
    ensures Removable(f, Taken(f, p, limit).0) && Taken(f, p, limit).0 <= f.Descendants(p)
    decreases limit, |f.Children(p)| + 1, 0
  {
    FirstTurn(f, p);
    if limit > 0 { TakenFromMeaning(f, p, limit, 0, {}); }
  }

  lemma ChildTaken(f: Forest, p: string, limit: nat, i: nat, gone: set<string>)
    requires f.UniqueIds() && limit > 0 && i < |f.Children(p)| && Turn(f, p, i, gone)
    ensures var c := f.Children(p)[i].id; var below := Taken(Cut(f, gone), c, limit - 1);
      && (below.1 <==> f.Fits(c, limit - 1)) && (below.1 ==> below.0 == f.Descendants(c))
      && Removable(Cut(f, gone), below.0) && below.0 <= Cut(f, gone).Descendants(c)
    decreases limit, |f.Children(p)| - i, 0
  {
    ChildTurn(f, p, i, gone, limit - 1);
    UniqueCut(f, gone);
    TakenMeaning(Cut(f, gone), f.Children(p)[i].id, limit - 1);
  }

  /** A child that fits goes with its tree, and the loop goes on. */
  lemma TakenNext(f: Forest, p: string, limit: nat, i: nat, gone: set<string>)
    requires f.UniqueIds() && limit > 0 && i < |f.Children(p)| && Turn(f, p, i, gone)
    requires f.Fits(f.Children(p)[i].id, limit - 1)
    ensures var more := gone + f.Tree(f.Children(p)[i].id);
      Turn(f, p, i + 1, more) && TakenFrom(f, p, limit, i, gone) == TakenFrom(f, p, limit, i + 1, more)
    decreases limit, |f.Children(p)| - i, 1
  {
    var c := f.Children(p)[i].id;
    ChildTaken(f, p, limit, i, gone);
    TakenUnfold(f, p, limit, i, gone);
    assert gone + f.Descendants(c) + {c} == gone + f.Tree(c);
    f.FitsAcyclic(c, limit - 1);
    NextTurn(f, p, i, gone);
  }

  /** A child that does not fit ends the loop. */
  lemma TakenStops(f: Forest, p: string, limit: nat, i: nat, gone: set<string>)
    requires f.UniqueIds() && limit > 0 && i < |f.Children(p)| && Turn(f, p, i, gone)
    requires !f.Fits(f.Children(p)[i].id, limit - 1)
    ensures var more := gone + Taken(Cut(f, gone), f.Children(p)[i].id, limit - 1).0;
      && TakenFrom(f, p, limit, i, gone) == (more, false)
      && Removable(f, more) && more <= f.Descendants(p) && !f.Fits(p, limit)
    decreases limit, |f.Children(p)| - i, 1
  {
    ChildTaken(f, p, limit, i, gone);
    TakenUnfold(f, p, limit, i, gone);
    BrokenOff(f, p, i, gone, Taken(Cut(f, gone), f.Children(p)[i].id, limit - 1).0);
    ProgressBroken(f, p, limit, i);
  }

  lemma {:induction false} TakenFromMeaning(f: Forest, p: string, limit: nat, i: nat, gone: set<string>)
    requires f.UniqueIds() && limit > 0 && Turn(f, p, i, gone)
    requires forall j :: 0 <= j < i ==> f.Fits(f.Children(p)[j].id, limit - 1)
    ensures var t := TakenFrom(f, p, limit, i, gone);
      && (t.1 <==> f.Fits(p, limit)) && (t.1 ==> t.0 == f.Descendants(p))
      && Removable(f, t.0) && t.0 <= f.Descendants(p)
    decreases limit, |f.Children(p)| - i, 2
  {
    if i == |f.Children(p)| {
      LastTurn(f, p, gone, limit);
    } else if f.Fits(f.Children(p)[i].id, limit - 1) {
      TakenNext(f, p, limit, i, gone);
      TakenFromMeaning(f, p, limit, i + 1, gone + f.Tree(f.Children(p)[i].id));
    } else {
      TakenStops(f, p, limit, i, gone);
    }
  }

  /** The loop has taken the first `i` children without running out of calls, and `ids` lists what it took. */
  ghost predicate Progress(f: Forest, p: string, limit: nat, start: seq<string>, i: nat, gone: set<string>,
                           ids: seq<string>)
  {
    && limit > 0 && Turn(f, p, i, gone) && TakenFrom(f, p, limit, i, gone) == Taken(f, p, limit)
    && ids + f.OrderFrom(p, limit, i) == start + f.OrderFrom(p, limit, 0)
    && forall j :: 0 <= j < i ==> f.Fits(f.Children(p)[j].id, limit - 1)
  }

  lemma ProgressNext(f: Forest, p: string, limit: nat, start: seq<string>, i: nat, gone: set<string>, ids: seq<string>)
    requires f.UniqueIds() && Progress(f, p, limit, start, i, gone, ids) && i < |f.Children(p)|
    requires f.Fits(f.Children(p)[i].id, limit - 1)
    ensures var c := f.Children(p)[i].id;
      Progress(f, p, limit, start, i + 1, gone + f.Tree(c), ids + f.OrderFrom(c, limit - 1, 0) + [c])
  {
    TakenNext(f, p, limit, i, gone);
    OrderNext(f, p, limit, i, start, ids);
  }

  lemma OrderNext(f: Forest, p: string, limit: nat, i: nat, start: seq<string>, ids: seq<string>)
    requires limit > 0 && i < |f.Children(p)|
    requires ids + f.OrderFrom(p, limit, i) == start + f.OrderFrom(p, limit, 0)
    ensures var c := f.Children(p)[i].id;
      ids + f.OrderFrom(c, limit - 1, 0) + [c] + f.OrderFrom(p, limit, i + 1) == start + f.OrderFrom(p, limit, 0)
  {
    var c := f.Children(p)[i].id;
    var below, rest := f.OrderFrom(c, limit - 1, 0), f.OrderFrom(p, limit, i + 1);
    assert f.OrderFrom(p, limit, i) == below + [c] + rest;
    assert ids + (below + [c] + rest) == ids + below + [c] + rest;
  }

  lemma ProgressBroken(f: Forest, p: string, limit: nat, i: nat)
    requires f.UniqueIds() && i < |f.Children(p)| && limit > 0 && !f.Fits(f.Children(p)[i].id, limit - 1)
    ensures !f.Fits(p, limit)
  {
    f.ChildrenMeaning(p);
  }

  lemma ProgressEnd(f: Forest, p: string, limit: nat, start: seq<string>, gone: set<string>, ids: seq<string>)
    requires f.UniqueIds() && Progress(f, p, limit, start, |f.Children(p)|, gone, ids)
    ensures f.Fits(p, limit) && ids == start + f.OrderFrom(p, limit, 0) && (gone, true) == Taken(f, p, limit)
  {
    LastTurn(f, p, gone, limit);
    assert ids + [] == ids;
  }
}
