/** What a folder deletion takes before it breaks off over a cycle (models/folders.py, routers/folders.py). */
module FolderCycles {
  import opened Lists
  import opened Folders
  import opened FolderEdits
  import opened FolderDepth
  import ChatStore

  // ---------- the walk that always enters the first child leading to a cycle ----------

  /** The rows before the first one that leads to a cycle. */
  ghost function Head(f: Forest, rows: seq<Folder>): (h: seq<Folder>)
    ensures |h| <= |rows|
  {
    if rows == [] || !f.AcyclicFrom(rows[0].id) then [] else [rows[0]] + Head(f, rows[1..])
  }

  lemma {:induction false} HeadMeaning(f: Forest, rows: seq<Folder>)
    ensures Head(f, rows) <= rows
    ensures forall r :: r in Head(f, rows) ==> f.AcyclicFrom(r.id)
    ensures |Head(f, rows)| < |rows| ==> !f.AcyclicFrom(rows[|Head(f, rows)|].id)
  {
    if rows != [] && f.AcyclicFrom(rows[0].id) { HeadMeaning(f, rows[1..]); }
  }

  /** The child of `c` that leads to a cycle and comes first. */
  ghost function Entered(f: Forest, c: string): string {
    var rows := f.Children(c);
    if |Head(f, rows)| < |rows| then rows[|Head(f, rows)|].id else c
  }

  /** The trees of the children of `c` before that one. */
  ghost function Before(f: Forest, c: string): set<string> {
    set y | y in f.Ids() && exists r :: r in Head(f, f.Children(c)) && y in f.Tree(r.id)
  }

  ghost function Walk(f: Forest, c: string, k: nat): string { if k == 0 then c else Entered(f, Walk(f, c, k - 1)) }

  /** Everything that the walk from `c` leaves behind. */
  ghost function Shed(f: Forest, c: string): set<string> {
    set y | y in f.Ids() && exists k: nat :: y in Before(f, Walk(f, c, k))
  }

  lemma WalkOn(f: Forest, c: string, k: nat)
    ensures Walk(f, c, k + 1) == Walk(f, Entered(f, c), k)
  {
    if k > 0 { WalkOn(f, c, k - 1); }
  }

  lemma EnteredMeaning(f: Forest, c: string)
    requires f.UniqueIds() && !f.AcyclicFrom(c)
    ensures |Head(f, f.Children(c))| < |f.Children(c)|
    ensures f.IsChild(c, Entered(f, c)) && !f.AcyclicFrom(Entered(f, c)) && Entered(f, c) in f.Ids()
  {
    var rows := f.Children(c);
    HeadMeaning(f, rows);
    f.ChildrenMeaning(c);
    var y :| (y == c || f.IsBelow(c, y)) && f.IsBelow(y, y);
    if y == c { assert f.IsBelow(c, y); }
    var n :| n >= 1 && f.Reaches(c, y, n);
    var d := f.FirstStep(c, y, n);
    assert n > 1 ==> f.IsBelow(d, y);
    assert !f.AcyclicFrom(d);
    var i :| 0 <= i < |rows| && rows[i].id == d;
    assert rows[i] in rows && (|Head(f, rows)| == |rows| ==> Head(f, rows) == rows);
    f.ChildBelow(c, Entered(f, c));
  }

  lemma WalkStays(f: Forest, c: string, k: nat)
    requires f.UniqueIds() && !f.AcyclicFrom(c)
    ensures !f.AcyclicFrom(Walk(f, c, k)) && (k > 0 ==> Walk(f, c, k) in f.Ids())
  {
    if k > 0 {
      WalkStays(f, c, k - 1);
      EnteredMeaning(f, Walk(f, c, k - 1));
    }
  }

  // ---------- the walk after some folders are gone ----------

  lemma {:induction false} FilterTwice<T>(s: seq<T>, p: T -> bool, q: T -> bool)
    ensures Filter(Filter(s, p), q) == Filter(Filter(s, q), p)
  {
    if s != [] {
      FilterTwice(s[1..], p, q);
      var a, b := Filter(s[1..], p), Filter(s[1..], q);
      assert ([s[0]] + a)[1..] == a && ([s[0]] + b)[1..] == b;
    }
  }

  lemma ChildrenLeft(f: Forest, gone: set<string>, c: string)
    ensures Cut(f, gone).Children(c) == Filter(f.Children(c), KeptFrom(gone))
  {
    FilterTwice(f.rows, KeptFrom(gone), InFolder(f.user, c));
  }

  lemma {:induction false} HeadLeft(f: Forest, gone: set<string>, rows: seq<Folder>)
    requires Removable(f, gone)
    ensures var left := Filter(rows, KeptFrom(gone)); var h := Head(Cut(f, gone), left);
      && h == Filter(Head(f, rows), KeptFrom(gone))
      && (|Head(f, rows)| < |rows| ==> |h| < |left| && left[|h|] == rows[|Head(f, rows)|])
    decreases |rows|
  {
    if rows != [] {
      HeadMeaning(f, rows);
      AcyclicCut(f, gone, rows[0].id);
      var rest := Filter(rows[1..], KeptFrom(gone));
      if f.AcyclicFrom(rows[0].id) {
        HeadLeft(f, gone, rows[1..]);
        var h := Head(f, rows[1..]);
        assert ([rows[0]] + h)[1..] == h && ([rows[0]] + rest)[1..] == rest;
      } else {
        assert rows[0].id !in gone;
      }
    }
  }

  lemma EnteredLeft(f: Forest, gone: set<string>, c: string)
    requires f.UniqueIds() && Removable(f, gone) && !f.AcyclicFrom(c)
    ensures Entered(Cut(f, gone), c) == Entered(f, c)
  {
    ChildrenLeft(f, gone, c);
    HeadLeft(f, gone, f.Children(c));
    EnteredMeaning(f, c);
  }

  lemma BeforeLeft(f: Forest, gone: set<string>, c: string)
    requires Removable(f, gone)
    ensures Before(Cut(f, gone), c) == Before(f, c) - gone
  {
    ChildrenLeft(f, gone, c);
    HeadLeft(f, gone, f.Children(c));
    IdsWithout(f, gone);
    FilterMeaning(Head(f, f.Children(c)), KeptFrom(gone));
    forall y | y in Before(f, c) && y !in gone ensures y in Before(Cut(f, gone), c) {
      var r :| r in Head(f, f.Children(c)) && y in f.Tree(r.id);
      InBeforeLeft(f, gone, c, r, y);
    }
    forall y | y in Before(Cut(f, gone), c) ensures y in Before(f, c) && y !in gone {
      var r :| r in Head(Cut(f, gone), Cut(f, gone).Children(c)) && y in Cut(f, gone).Tree(r.id);
      BelowCut(f, gone, r.id, y);
      assert r in Head(f, f.Children(c)) && y in f.Tree(r.id);
    }
  }

  lemma InBeforeLeft(f: Forest, gone: set<string>, c: string, r: Folder, y: string)
    requires Removable(f, gone) && r in Head(f, f.Children(c)) && y in f.Tree(r.id) && y in f.Ids() && y !in gone
    requires Cut(f, gone).Ids() == f.Ids() - gone
    requires r.id !in gone ==> r in Head(Cut(f, gone), Cut(f, gone).Children(c))
    ensures y in Before(Cut(f, gone), c)
  {
    BelowCut(f, gone, r.id, y);
    assert r.id !in gone;
    assert y in Cut(f, gone).Tree(r.id);
  }

  lemma WalkLeft(f: Forest, gone: set<string>, c: string, k: nat)
    requires f.UniqueIds() && Removable(f, gone) && !f.AcyclicFrom(c)
    ensures Walk(Cut(f, gone), c, k) == Walk(f, c, k)
  {
    if k > 0 {
      WalkLeft(f, gone, c, k - 1);
      WalkStays(f, c, k - 1);
      EnteredLeft(f, gone, Walk(f, c, k - 1));
    }
  }

  // ---------- one folder of the walk ----------

  lemma BeforeIsTrees(f: Forest, c: string)
    requires f.UniqueIds()
    ensures |Head(f, f.Children(c))| <= |f.Children(c)|
    ensures TreesTo(f, c, |Head(f, f.Children(c))|) == Before(f, c)
  {
    var rows, h := f.Children(c), Head(f, f.Children(c));
    HeadMeaning(f, rows);
    forall y | y in TreesTo(f, c, |h|) ensures y in Before(f, c) {
      var j :| 0 <= j < |h| && y in f.Tree(rows[j].id);
      assert h[j] == rows[j] && rows[j] in h;
    }
    forall y | y in Before(f, c) ensures y in TreesTo(f, c, |h|) {
      var r :| r in h && y in f.Tree(r.id);
      var j :| 0 <= j < |h| && h[j] == r;
      assert rows[j] == r;
    }
  }

  /** The children before the entered one are taken one after the other. */
  lemma {:induction false} HeadTaken(f: Forest, c: string, limit: nat, i: nat)
    requires f.UniqueIds() && limit > 0 && i <= |Head(f, f.Children(c))| <= |f.Children(c)|
    requires forall r :: r in Head(f, f.Children(c)) ==> f.Fits(r.id, limit - 1)
    ensures Turn(f, c, i, TreesTo(f, c, i)) && TakenFrom(f, c, limit, i, TreesTo(f, c, i)) == Taken(f, c, limit)
    decreases i
  {
    if i == 0 {
      FirstTurn(f, c);
      assert TreesTo(f, c, 0) == {};
    } else {
      var rows, h := f.Children(c), Head(f, f.Children(c));
      HeadMeaning(f, rows);
      HeadTaken(f, c, limit, i - 1);
      assert h[i - 1] == rows[i - 1] && h[i - 1] in h;
      TakenNext(f, c, limit, i - 1, TreesTo(f, c, i - 1));
      assert Turn(f, c, i, TreesTo(f, c, i - 1) + f.Tree(rows[i - 1].id));
    }
  }

  /** A deletion that comes to a folder of the walk takes what the walk leaves behind there, then enters the child. */
  lemma WalkTaken(f: Forest, c: string, limit: nat, left: nat)
    requires f.UniqueIds() && !f.AcyclicFrom(c) && limit == left + 1
    requires forall r :: r in Head(f, f.Children(c)) ==> f.Fits(r.id, left)
    ensures Removable(f, Before(f, c))
    ensures Taken(f, c, limit).0 == Before(f, c) + Taken(Cut(f, Before(f, c)), Entered(f, c), left).0
  {
    var i := |Head(f, f.Children(c))|;
    EnteredMeaning(f, c);
    BeforeIsTrees(f, c);
    HeadTaken(f, c, limit, i);
    f.FitsExactly(Entered(f, c), left);
    TakenStops(f, c, limit, i, Before(f, c));
  }

  // ---------- the whole walk ----------

  /** Where the walk has nothing left to take, nothing is taken, however many calls are left. */
  lemma {:induction false} NothingTaken(f: Forest, c: string, limit: nat)
    requires f.UniqueIds() && !f.AcyclicFrom(c) && forall k: nat :: Before(f, Walk(f, c, k)) == {}
    ensures Taken(f, c, limit).0 == {}
    decreases limit
  {
    if limit > 0 {
      assert Walk(f, c, 0) == c;
      var left := limit - 1;
      HeadEmpty(f, c);
      WalkTaken(f, c, limit, left);
      WithoutNone(f.rows);
      assert Cut(f, {}) == f;
      EnteredMeaning(f, c);
      forall k: nat ensures Before(f, Walk(f, Entered(f, c), k)) == {} { WalkOn(f, c, k); }
      NothingTaken(f, Entered(f, c), left);
    }
  }

  lemma HeadEmpty(f: Forest, c: string)
    requires f.UniqueIds()
    ensures Before(f, c) == {} ==> Head(f, f.Children(c)) == []
  {
    var h := Head(f, f.Children(c));
    if h != [] {
      HeadMeaning(f, f.Children(c));
      f.ChildrenMeaning(c);
      f.ChildBelow(c, h[0].id);
      assert h[0] in h && h[0].id in f.Tree(h[0].id);
      assert h[0].id in Before(f, c);
    }
  }

  /** The first `m` sets together. */
  ghost function UnionTo(sets: nat -> set<string>, m: nat): set<string> {
    if m == 0 then {} else UnionTo(sets, m - 1) + sets(m - 1)
  }

  lemma {:induction false} UnionHolds(sets: nat -> set<string>, m: nat, j: nat)
    requires j < m
    ensures sets(j) <= UnionTo(sets, m) && sets(j) - UnionTo(sets, m) == {}
  {
    if j < m - 1 { UnionHolds(sets, m - 1, j); }
  }

  lemma {:induction false} UnionWithin(sets: nat -> set<string>, m: nat, y: string)
    requires y in UnionTo(sets, m)
    ensures exists j: nat :: j < m && y in sets(j)
  {
    if y !in sets(m - 1) { UnionWithin(sets, m - 1, y); }
  }

  ghost function Left(f: Forest, c: string): nat -> set<string> { (k: nat) => Before(f, Walk(f, c, k)) }

  /** What the first `m` folders of the walk leave behind. */
  ghost function ShedTo(f: Forest, c: string, m: nat): set<string> { UnionTo(Left(f, c), m) }

  lemma Returns(f: Forest, c: string, a: nat, b: nat, k: nat) returns (j: nat)
    requires a < b && Walk(f, c, a) == Walk(f, c, b)
    ensures j < b && Walk(f, c, j) == Walk(f, c, k)
  {
    if k == 0 {
      j := 0;
    } else {
      var i := Returns(f, c, a, b, k - 1);
      j := if i + 1 == b then a else i + 1;
      assert Walk(f, c, i + 1) == Walk(f, c, k);
    }
  }

  lemma Pigeonhole(s: seq<string>, ids: set<string>) returns (i: nat, j: nat)
    requires |s| > |ids| && forall x :: x in s ==> x in ids
    ensures i < j < |s| && s[i] == s[j]
  {
    SubsetCardinality(Elements(s), ids);
    if NoDups(s) { NoDupsCardinality(s); }
    i, j :| 0 <= i < j < |s| && s[i] == s[j];
  }

  ghost function Span(f: Forest): nat { |f.Ids()| + 1 }

  /** The walk comes back to a folder within as many steps as there are folders. */
  lemma WalkRepeats(f: Forest, c: string) returns (a: nat, b: nat)
    requires f.UniqueIds() && !f.AcyclicFrom(c)
    ensures a < b <= Span(f) && Walk(f, c, a) == Walk(f, c, b)
  {
    var n := |f.Ids()| + 1;
    var seen := seq(n, i requires 0 <= i < n => Walk(f, c, i + 1));
    forall x | x in seen ensures x in f.Ids() {
      var i :| 0 <= i < n && seen[i] == x;
      WalkStays(f, c, i + 1);
    }
    var i, j := Pigeonhole(seen, f.Ids());
    a, b := i + 1, j + 1;
  }

  /** After that it leaves behind nothing new. */
  lemma WalkSettles(f: Forest, c: string, k: nat)
    requires f.UniqueIds() && !f.AcyclicFrom(c)
    ensures Before(f, Walk(f, c, k)) - ShedTo(f, c, Span(f)) == {}
  {
    var a, b := WalkRepeats(f, c);
    var j := Returns(f, c, a, b, k);
    UnionHolds(Left(f, c), Span(f), j);
  }

  lemma ShedIsShedTo(f: Forest, c: string)
    requires f.UniqueIds() && !f.AcyclicFrom(c)
    ensures Shed(f, c) == ShedTo(f, c, Span(f))
  {
    var n := Span(f);
    forall y | y in Shed(f, c) ensures y in ShedTo(f, c, n) {
      var k: nat :| y in Before(f, Walk(f, c, k));
      WalkSettles(f, c, k);
      assert y !in Before(f, Walk(f, c, k)) - ShedTo(f, c, n);
    }
    forall y | y in ShedTo(f, c, n) ensures y in Shed(f, c) {
      UnionWithin(Left(f, c), n, y);
      var j: nat :| j < n && y in Left(f, c)(j);
      assert y in Before(f, Walk(f, c, j));
    }
  }

  // ---------- following the walk ----------

  lemma BeforeRemovable(f: Forest, c: string)
    ensures Removable(f, Before(f, c))
  {
    HeadMeaning(f, f.Children(c));
    forall y | y in Before(f, c) ensures f.AcyclicFrom(y) && forall z :: f.IsBelow(y, z) ==> z in Before(f, c) {
      var r :| r in Head(f, f.Children(c)) && y in f.Tree(r.id);
      TreeRemovable(f, r.id);
      forall z | f.IsBelow(y, z) ensures z in Before(f, c) {
        f.TreeClosed(r.id, y, z);
        assert z in f.Ids() by { var n :| n >= 1 && f.Reaches(y, z, n); f.ReachesId(y, z, n); }
      }
    }
  }

  lemma {:induction false} UnionKeeps(p: set<string> -> bool, sets: nat -> set<string>, m: nat)
    requires p({}) && (forall a, b :: p(a) && p(b) ==> p(a + b)) && forall k: nat :: p(sets(k))
    ensures p(UnionTo(sets, m))
  {
    if m > 0 { UnionKeeps(p, sets, m - 1); }
  }

  lemma RemovableUnion(f: Forest, a: set<string>, b: set<string>)
    requires Removable(f, a) && Removable(f, b)
    ensures Removable(f, a + b)
  {
  }

  lemma ShedToRemovable(f: Forest, c: string, m: nat)
    ensures Removable(f, ShedTo(f, c, m))
  {
    var p := gone => Removable(f, gone);
    forall a, b | p(a) && p(b) ensures p(a + b) { RemovableUnion(f, a, b); }
    forall k: nat ensures p(Left(f, c)(k)) { BeforeRemovable(f, Walk(f, c, k)); }
    UnionKeeps(p, Left(f, c), m);
  }

  lemma HeadFits(f: Forest, c: string, limit: nat)
    requires limit > |f.Ids()|
    ensures forall r :: r in Head(f, f.Children(c)) ==> f.Fits(r.id, limit)
  {
    HeadMeaning(f, f.Children(c));
    forall r | r in Head(f, f.Children(c)) ensures f.Fits(r.id, limit) {
      SubsetCardinality(f.Descendants(r.id), f.Ids());
      f.FitsExactly(r.id, limit);
    }
  }

  lemma WalkTakenAmply(f: Forest, c: string, limit: nat, left: nat)
    requires f.UniqueIds() && !f.AcyclicFrom(c) && limit == left + 1 && left > |f.Ids()|
    ensures Taken(f, c, limit).0 == Before(f, c) + Taken(Cut(f, Before(f, c)), Entered(f, c), left).0
  {
    HeadFits(f, c, left);
    WalkTaken(f, c, limit, left);
  }

  lemma CutReady(f: Forest, gone: set<string>, c: string)
    requires f.UniqueIds() && Removable(f, gone) && !f.AcyclicFrom(c)
    ensures var g := Cut(f, gone); g.UniqueIds() && !g.AcyclicFrom(c) && |g.Ids()| <= |f.Ids()|
  {
    UniqueCut(f, gone);
    AcyclicCut(f, gone, c);
    IdsWithout(f, gone);
    SubsetCardinality(Cut(f, gone).Ids(), f.Ids());
  }

  lemma CutBefore(f: Forest, gone: set<string>, c: string)
    requires f.UniqueIds() && Removable(f, gone) && !f.AcyclicFrom(c)
    ensures var g := Cut(f, gone);
      && gone + Before(g, c) == gone + Before(f, c) && Entered(g, c) == Entered(f, c)
      && Cut(g, Before(g, c)) == Cut(f, gone + Before(f, c))
  {
    var g := Cut(f, gone);
    BeforeLeft(f, gone, c);
    EnteredLeft(f, gone, c);
    WithoutTwice(f.rows, gone, Before(g, c));
    assert gone + (Before(f, c) - gone) == gone + Before(f, c);
  }

  /** A folder of the walk, in what is left when the deletion comes to it. */
  lemma StepTaken(f: Forest, gone: set<string>, c: string, calls: nat, more: set<string>, next: string, left: nat)
    requires f.UniqueIds() && Removable(f, gone) && !f.AcyclicFrom(c) && calls > |f.Ids()| + 1
    requires more == gone + Before(f, c) && next == Entered(f, c) && left == calls - 1
    ensures gone + Taken(Cut(f, gone), c, calls).0 == more + Taken(Cut(f, more), next, left).0
  {
    StepTakenIn(f, gone, c, calls, Cut(f, gone), left);
    CutBefore(f, gone, c);
  }

  lemma StepTakenIn(f: Forest, gone: set<string>, c: string, calls: nat, g: Forest, left: nat)
    requires f.UniqueIds() && Removable(f, gone) && !f.AcyclicFrom(c) && calls > |f.Ids()| + 1
    requires g == Cut(f, gone) && left == calls - 1
    ensures Taken(g, c, calls).0 == Before(g, c) + Taken(Cut(g, Before(g, c)), Entered(g, c), left).0
  {
    CutReady(f, gone, c);
    WalkTakenAmply(g, c, calls, left);
  }

  /** What is gone when the walk comes to its `k`-th folder, and what is taken from there on with `calls` left. */
  ghost function Along(f: Forest, c: string, k: nat, calls: nat): set<string> {
    ShedTo(f, c, k) + Taken(Cut(f, ShedTo(f, c, k)), Walk(f, c, k), calls).0
  }

  lemma ShedToNext(f: Forest, c: string, k: nat, next: nat)
    requires next == k + 1
    ensures ShedTo(f, c, next) == ShedTo(f, c, k) + Before(f, Walk(f, c, k))
    ensures Walk(f, c, next) == Entered(f, Walk(f, c, k))
  {
  }

  lemma AlongStep(f: Forest, c: string, k: nat, calls: nat, next: nat, left: nat)
    requires f.UniqueIds() && !f.AcyclicFrom(c) && calls > Span(f) && next == k + 1 && left == calls - 1
    ensures Along(f, c, k, calls) == Along(f, c, next, left)
  {
    ShedToRemovable(f, c, k);
    WalkStays(f, c, k);
    ShedToNext(f, c, k, next);
    StepTaken(f, ShedTo(f, c, k), Walk(f, c, k), calls, ShedTo(f, c, next), Walk(f, c, next), left);
  }

  lemma {:induction false} WalkedTo(f: Forest, c: string, limit: nat, k: nat, calls: nat)
    requires f.UniqueIds() && !f.AcyclicFrom(c) && calls >= Span(f) && limit == k + calls
    ensures Taken(f, c, limit).0 == Along(f, c, k, calls)
    decreases k
  {
    if k == 0 {
      AlongStart(f, c, limit);
    } else {
      var before, more := k - 1, calls + 1;
      WalkedTo(f, c, limit, before, more);
      AlongStep(f, c, before, more, k, calls);
    }
  }

  lemma AlongStart(f: Forest, c: string, limit: nat)
    ensures Along(f, c, 0, limit) == Taken(f, c, limit).0
  {
    WithoutNone(f.rows);
    assert Cut(f, {}) == f;
    assert ShedTo(f, c, 0) == {} && Walk(f, c, 0) == c;
  }

  lemma WalkFurther(f: Forest, c: string, a: nat, k: nat, n: nat)
    requires n == a + k
    ensures Walk(f, Walk(f, c, a), k) == Walk(f, c, n)
  {
    if k > 0 { WalkFurther(f, c, a, k - 1, n - 1); }
  }

  /** Once all that the walk leaves behind is gone, the rest of it takes nothing. */
  lemma WalkEnds(f: Forest, c: string, limit: nat)
    requires f.UniqueIds() && !f.AcyclicFrom(c)
    ensures Taken(Cut(f, ShedTo(f, c, Span(f))), Walk(f, c, Span(f)), limit).0 == {}
  {
    var gone, d := ShedTo(f, c, Span(f)), Walk(f, c, Span(f));
    ShedToRemovable(f, c, Span(f));
    WalkStays(f, c, Span(f));
    forall k: nat ensures Before(Cut(f, gone), Walk(Cut(f, gone), d, k)) == {} { RestEmpty(f, c, k); }
    CutReady(f, gone, d);
    NothingTaken(Cut(f, gone), d, limit);
  }

  lemma RestWalk(f: Forest, c: string, m: nat, k: nat, n: nat)
    requires f.UniqueIds() && !f.AcyclicFrom(c) && n == m + k
    ensures var g := Cut(f, ShedTo(f, c, m));
      Before(g, Walk(g, Walk(f, c, m), k)) == Before(f, Walk(f, c, n)) - ShedTo(f, c, m)
  {
    ShedToRemovable(f, c, m);
    WalkStays(f, c, m);
    WalkLeft(f, ShedTo(f, c, m), Walk(f, c, m), k);
    WalkFurther(f, c, m, k, n);
    BeforeLeft(f, ShedTo(f, c, m), Walk(f, c, n));
  }

  lemma RestEmpty(f: Forest, c: string, k: nat)
    requires f.UniqueIds() && !f.AcyclicFrom(c)
    ensures var g := Cut(f, ShedTo(f, c, Span(f))); Before(g, Walk(g, Walk(f, c, Span(f)), k)) == {}
  {
    var n := Span(f) + k;
    RestWalk(f, c, Span(f), k, n);
    WalkSettles(f, c, n);
  }

  /** Deleting a folder above a cycle, with calls enough for every tree without one, takes exactly what the walk leaves
      behind: the trees of the children listed before the first that leads to a cycle, there and so on. */
  lemma TakenOverCycle(f: Forest, id: string, limit: nat)
    requires f.UniqueIds() && !f.AcyclicFrom(id) && limit >= 2 * |f.Ids()| + 2
    ensures Taken(f, id, limit) == (Shed(f, id), false)
  {
    WalkedThrough(f, id, limit);
    ShedIsShedTo(f, id);
    TakenMeaning(f, id, limit);
    f.FitsExactly(id, limit);
  }

  lemma WalkedThrough(f: Forest, id: string, limit: nat)
    requires f.UniqueIds() && !f.AcyclicFrom(id) && limit >= 2 * Span(f)
    ensures Taken(f, id, limit).0 == ShedTo(f, id, Span(f))
  {
    var left := limit - Span(f);
    WalkedTo(f, id, limit, Span(f), left);
    WalkEnds(f, id, left);
  }

  // ---------- what dangles ----------

  predicate NoChatsIn(chats: map<string, Chat>, user: string, gone: set<string>) {
    forall c :: c in chats && ChatStore.Owns(chats, c, user) && chats[c].folder.Some? ==> chats[c].folder.value !in gone
  }

  lemma DanglesExactly(f: Forest, chats: map<string, Chat>, gone: set<string>)
    requires NoDangling(f, chats) && Removable(f, gone)
    ensures NoDangling(Cut(f, gone), chats) <==> NoChatsIn(chats, f.user, gone)
  {
    var g := Cut(f, gone);
    IdsWithout(f, gone);
    FilterMeaning(f.rows, KeptFrom(gone));
    forall r | g.IsRow(r) && r.parent.Some? && r.parent.value != "" ensures r.parent.value in g.Ids() {
      if r.parent.value in gone {
        assert f.IsEdge(r, r.parent.value, r.id);
        f.ChildBelow(r.parent.value, r.id);
        assert false;
      }
    }
  }

  /** After a deletion that breaks off nothing dangles exactly when the user has no chat in a folder it takes, since the
      cascade reaches no chat. */
  lemma BrokenCascade(f: Forest, chats: map<string, Chat>, id: string, limit: nat)
    requires f.UniqueIds() && NoDangling(f, chats) && !f.Fits(id, limit)
    ensures NoDangling(Cut(f, Taken(f, id, limit).0), chats) <==> NoChatsIn(chats, f.user, Taken(f, id, limit).0)
  {
    TakenMeaning(f, id, limit);
    DanglesExactly(f, chats, Taken(f, id, limit).0);
  }

  /** Over a cycle these are the folders that the walk leaves behind. */
  lemma CascadeOverCycle(f: Forest, chats: map<string, Chat>, id: string, limit: nat)
    requires f.UniqueIds() && NoDangling(f, chats) && !f.AcyclicFrom(id) && limit >= 2 * |f.Ids()| + 2
    ensures NoDangling(Cut(f, Shed(f, id)), chats) <==> NoChatsIn(chats, f.user, Shed(f, id))
    ensures Taken(f, id, limit).0 == Shed(f, id)
  {
    TakenOverCycle(f, id, limit);
    TakenMeaning(f, id, limit);
    DanglesExactly(f, chats, Shed(f, id));
  }

  // ---------- an input ----------

  /** Folder "a" in "p", then "q" in "p" and "p" in "q". */
  function Looped(user: string): Forest {
    Forest([Folder("a", user, Some("p"), ""), Folder("q", user, Some("p"), ""), Folder("p", user, Some("q"), "")], user)
  }

  lemma FilterThree<T>(a: T, b: T, c: T, p: T -> bool)
    ensures Filter([a, b, c], p) == (if p(a) then [a] else []) + (if p(b) then [b] else []) + (if p(c) then [c] else [])
  {
    assert [a, b, c][1..] == [b, c] && [b, c][1..] == [c] && [c][1..] == [];
    assert Filter([c], p) == if p(c) then [c] else [];
    assert Filter([b, c], p) == (if p(b) then [b] else []) + Filter([c], p);
  }

  lemma LoopedChildren(user: string)
    ensures var f := Looped(user);
      && f.UniqueIds() && f.Children("p") == [f.rows[0], f.rows[1]] && f.Children("q") == [f.rows[2]]
      && f.Children("a") == [] && Without(f.rows, {"a"}) == [f.rows[1], f.rows[2]]
  {
    var f := Looped(user);
    FilterThree(f.rows[0], f.rows[1], f.rows[2], InFolder(user, "p"));
    FilterThree(f.rows[0], f.rows[1], f.rows[2], InFolder(user, "q"));
    FilterThree(f.rows[0], f.rows[1], f.rows[2], InFolder(user, "a"));
    FilterThree(f.rows[0], f.rows[1], f.rows[2], KeptFrom({"a"}));
  }

  lemma LoopedCycles(user: string)
    ensures var f := Looped(user); !f.AcyclicFrom("p") && !f.AcyclicFrom("q") && f.AcyclicFrom("a") && f.Fits("a", 1)
  {
    var f := Looped(user);
    assert f.IsEdge(f.rows[1], "p", "q") && f.IsEdge(f.rows[2], "q", "p");
    f.ChildBelow("p", "q");
    f.ChildBelow("q", "p");
    f.BelowTrans("p", "q", "p");
    f.BelowTrans("q", "p", "q");
    assert forall c :: !f.IsChild("a", c);
    assert f.Fits("a", 1);
    f.FitsAcyclic("a", 1);
  }

  /** Deleting "p" takes "a" and breaks off, under any limit that lets it take "a". */
  lemma LoopedTaken(user: string, limit: nat)
    requires limit >= 2
    ensures Taken(Looped(user), "p", limit) == ({"a"}, false)
  {
    var f := Looped(user);
    LoopedHead(user);
    LoopedCycles(user);
    LoopedTree(user);
    var left := limit - 1;
    f.FitsExactly("a", left);
    WalkTaken(f, "p", limit, left);
    LoopedRest(user, left);
    TakenMeaning(f, "p", limit);
    f.FitsExactly("p", limit);
  }

  lemma LoopedHead(user: string)
    ensures var f := Looped(user);
      && f.UniqueIds() && Head(f, f.Children("p")) == [f.rows[0]] && Entered(f, "p") == "q" && Before(f, "p") == {"a"}
  {
    var f := Looped(user);
    LoopedChildren(user);
    LoopedCycles(user);
    LoopedTree(user);
    var rows := f.Children("p");
    assert rows[1..] == [f.rows[1]] && Head(f, [f.rows[1]]) == [];
    assert Head(f, rows) == [f.rows[0]];
    assert f.rows[0] in Head(f, rows);
  }

  lemma LoopedTree(user: string)
    ensures var f := Looped(user); f.Tree("a") == {"a"} && "a" in f.Ids() && f.Descendants("a") == {}
  {
    var f := Looped(user);
    assert f.rows[0] in f.rows;
    assert forall c :: !f.IsChild("a", c);
    forall y ensures !f.IsBelow("a", y) {
      if n :| n >= 1 && f.Reaches("a", y, n) { var c := f.FirstStep("a", y, n); assert false; }
    }
  }

  /** Without "a" only the cycle is left, where nothing can be taken. */
  lemma LoopedRest(user: string, limit: nat)
    ensures Taken(Cut(Looped(user), {"a"}), "q", limit).0 == {}
  {
    var f := Looped(user);
    var g := Cut(f, {"a"});
    LoopedChildren(user);
    LoopedCycles(user);
    LoopedTree(user);
    TreeRemovable(f, "a");
    UniqueCut(f, {"a"});
    AcyclicCut(f, {"a"}, "p");
    AcyclicCut(f, {"a"}, "q");
    forall c ensures Head(g, g.Children(c)) == [] {
      FilterMeaning(g.rows, InFolder(g.user, c));
      assert g.Children(c) != [] ==> g.Children(c)[0] in g.rows;
    }
    NothingTaken(g, "q", limit);
  }

  function ChatIn(user: string, folder: string): Chat {
    ChatStore.Chat(ChatStore.User(user), "", {}, Some(folder), false, None)
  }

  /** A chat in "a" is left pointing at a folder that is gone. */
  lemma BrokenCascadeDangles(user: string, limit: nat)
    requires limit >= 2
    ensures var f, chats := Looped(user), map["c" := ChatIn(user, "a")];
      NoDangling(f, chats) && !NoDangling(Cut(f, Taken(f, "p", limit).0), chats)
  {
    var f, chats := Looped(user), map["c" := ChatIn(user, "a")];
    LoopedTaken(user, limit);
    IdsWithout(f, {"a"});
    assert f.rows[0] in f.rows && f.rows[1] in f.rows && f.rows[2] in f.rows;
    assert "a" in f.Ids() && "p" in f.Ids() && "q" in f.Ids();
    assert ChatStore.Owns(chats, "c", user);
  }
}
