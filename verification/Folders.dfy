/** The folder table as a forest per user (models/folders.py). */
module Folders {
  import opened Lists

  datatype Folder = Folder(id: string, user: string, parent: Option<string>, name: string)

  function InFolder(user: string, p: string): Folder -> bool {
    (r: Folder) => r.user == user && r.parent == Some(p)
  }

  /** One user's rows of the table, in storage order. */
  datatype Forest = Forest(rows: seq<Folder>, user: string) {

    ghost predicate UniqueIds() {
      forall i, j :: 0 <= i < j < |rows| ==> rows[i].id != rows[j].id
    }

    ghost predicate IsRow(r: Folder) { r in rows && r.user == user }

    ghost predicate IsEdge(r: Folder, p: string, y: string) {
      IsRow(r) && r.id == y && r.parent == Some(p)
    }

    ghost predicate IsChild(p: string, y: string) { exists r :: IsEdge(r, p, y) }

    /** `y` lies `n` parent steps below `x`. */
    ghost predicate Reaches(x: string, y: string, n: nat)
      decreases n
    {
      if n == 0 then x == y else exists p :: IsChild(p, y) && Reaches(x, p, n - 1)
    }

    ghost predicate IsBelow(x: string, y: string) { exists n :: n >= 1 && Reaches(x, y, n) }

    ghost predicate Acyclic() { forall x :: !IsBelow(x, x) }

    /** Neither `x` nor anything below it lies on a cycle. */
    ghost predicate AcyclicFrom(x: string) { forall y :: y == x || IsBelow(x, y) ==> !IsBelow(y, y) }

    ghost function Ids(): set<string> { set r | r in rows && r.user == user :: r.id }

    ghost function Descendants(x: string): set<string> { set y | y in Ids() && IsBelow(x, y) }

    /** `get_folders_by_parent_id_and_user_id`. */
    function Children(p: string): seq<Folder> { Filter(rows, InFolder(user, p)) }

    lemma OneParent(p: string, q: string, y: string)
      requires UniqueIds() && IsChild(p, y) && IsChild(q, y)
      ensures p == q
    {
    }

    lemma {:induction false} Chain(x: string, y: string, z: string, n: nat, m: nat)
      requires Reaches(x, y, n) && Reaches(y, z, m)
      ensures Reaches(x, z, n + m)
      decreases m
    {
      if m > 0 {
        var p :| IsChild(p, z) && Reaches(y, p, m - 1);
        Chain(x, y, p, n, m - 1);
      }
    }

    /** A downward path starts with a child. */
    lemma {:induction false} FirstStep(x: string, y: string, n: nat) returns (c: string)
      requires n >= 1 && Reaches(x, y, n)
      ensures IsChild(x, c) && Reaches(c, y, n - 1)
      decreases n
    {
      var p :| IsChild(p, y) && Reaches(x, p, n - 1);
      if n == 1 { c := y; } else { c := FirstStep(x, p, n - 1); }
    }

    /** Parents are unique, so two folders above the same one are above each other. */
    lemma {:induction false} SameLine(x: string, x': string, y: string, n: nat, k: nat)
      requires UniqueIds() && Reaches(x, y, n) && Reaches(x', y, n + k)
      ensures Reaches(x', x, k)
      decreases n
    {
      if n > 0 {
        var p :| IsChild(p, y) && Reaches(x, p, n - 1);
        var q :| IsChild(q, y) && Reaches(x', q, n + k - 1);
        OneParent(p, q, y);
        SameLine(x, x', p, n - 1, k);
      }
    }

    lemma ReachesId(x: string, y: string, n: nat)
      requires n >= 1 && Reaches(x, y, n)
      ensures y in Ids()
    {
    }

    lemma ChildBelow(p: string, c: string)
      requires IsChild(p, c)
      ensures IsBelow(p, c) && c in Descendants(p)
    {
      assert Reaches(p, p, 0);
      assert Reaches(p, c, 1);
      ReachesId(p, c, 1);
    }

    lemma BelowTrans(x: string, y: string, z: string)
      requires IsBelow(x, y) && IsBelow(y, z)
      ensures IsBelow(x, z)
    {
      var n :| n >= 1 && Reaches(x, y, n);
      var m :| m >= 1 && Reaches(y, z, m);
      Chain(x, y, z, n, m);
    }

    /** Going down a step leaves strictly fewer descendants: the recursion's measure. */
    lemma DescendantsShrink(p: string, c: string)
      requires AcyclicFrom(p) && IsChild(p, c)
      ensures AcyclicFrom(c)
      ensures Descendants(c) < Descendants(p) && |Descendants(c)| < |Descendants(p)|
    {
      ChildBelow(p, c);
      forall y | IsBelow(c, y) ensures IsBelow(p, y) { BelowTrans(p, c, y); }
      forall y | y in Descendants(c) ensures y in Descendants(p) { BelowTrans(p, c, y); }
      SubsetCardinality(Descendants(c), Descendants(p));
    }

    lemma {:induction false} PathsBounded(x: string, y: string, n: nat)
      requires AcyclicFrom(x) && Reaches(x, y, n)
      ensures n <= |Descendants(x)|
      decreases n
    {
      if n > 0 {
        var c := FirstStep(x, y, n);
        DescendantsShrink(x, c);
        PathsBounded(c, y, n - 1);
      }
    }

    lemma {:induction false} GoRound(y: string, m: nat, times: nat) returns (n: nat)
      requires m >= 1 && Reaches(y, y, m)
      ensures n >= times && Reaches(y, y, n)
      decreases times
    {
      if times == 0 {
        n := 0;
      } else {
        n := GoRound(y, m, times - 1);
        Chain(y, y, y, n, m);
        n := n + m;
      }
    }

    lemma DeepPath(x: string, bound: nat) returns (y: string, n: nat)
      requires !AcyclicFrom(x)
      ensures n > bound && Reaches(x, y, n)
    {
      y :| (y == x || IsBelow(x, y)) && IsBelow(y, y);
      var k :| k >= 1 && Reaches(x, y, k);
      var m :| m >= 1 && Reaches(y, y, m);
      n := GoRound(y, m, bound + 1);
      Chain(x, y, y, k, n);
      n := k + n;
    }

    /** The recursion below `x` has bounded depth exactly when nothing it meets lies on a cycle. */
    lemma DepthBoundedExactly(x: string)
      ensures AcyclicFrom(x) <==> forall y, n: nat :: Reaches(x, y, n) ==> n <= |Descendants(x)|
    {
      if AcyclicFrom(x) {
        forall y, n: nat | Reaches(x, y, n) ensures n <= |Descendants(x)| { PathsBounded(x, y, n); }
      } else {
        var y, n := DeepPath(x, |Descendants(x)|);
        assert Reaches(x, y, n) && n > |Descendants(x)|;
      }
    }

    /** A recursion from `p` that may open `limit` calls at once does not run out of them. */
    ghost predicate Fits(p: string, limit: nat)
      decreases limit
    {
      limit > 0 && forall c :: IsChild(p, c) ==> Fits(c, limit - 1)
    }

    lemma {:induction false} FitsBounds(p: string, limit: nat, y: string, n: nat)
      requires Fits(p, limit) && Reaches(p, y, n)
      ensures n < limit
      decreases limit
    {
      if n > 0 {
        var c := FirstStep(p, y, n);
        FitsBounds(c, limit - 1, y, n - 1);
      }
    }

    lemma {:induction false} BoundFits(p: string, limit: nat)
      requires forall y, n: nat :: Reaches(p, y, n) ==> n < limit
      ensures Fits(p, limit)
      decreases limit
    {
      assert Reaches(p, p, 0);
      forall c | IsChild(p, c) ensures Fits(c, limit - 1) {
        assert Reaches(p, c, 1);
        forall y, n: nat | Reaches(c, y, n) ensures n < limit - 1 { Chain(p, c, y, 1, n); }
        BoundFits(c, limit - 1);
      }
    }

    lemma FitsAcyclic(p: string, limit: nat)
      requires Fits(p, limit)
      ensures AcyclicFrom(p)
    {
      if !AcyclicFrom(p) {
        var y, n := DeepPath(p, limit);
        FitsBounds(p, limit, y, n);
      }
    }

    /** Some number of calls suffices exactly when nothing met lies on a cycle, and then one more than there are
        folders below does. */
    lemma FitsExactly(p: string, limit: nat)
      ensures Fits(p, limit) ==> AcyclicFrom(p)
      ensures AcyclicFrom(p) && limit > |Descendants(p)| ==> Fits(p, limit)
    {
      if Fits(p, limit) { FitsAcyclic(p, limit); }
      if AcyclicFrom(p) && limit > |Descendants(p)| {
        DepthBoundedExactly(p);
        BoundFits(p, limit);
      }
    }

    ghost function Tree(c: string): (t: set<string>) { {c} + Descendants(c) }

    lemma InTree(c: string, y: string) returns (n: nat)
      requires y in Tree(c)
      ensures Reaches(c, y, n)
    {
      if y == c { n := 0; } else { n :| n >= 1 && Reaches(c, y, n); }
    }

    lemma SharedBelow(p: string, c: string, d: string, y: string, n: nat, k: nat)
      requires UniqueIds() && AcyclicFrom(d) && IsChild(p, c) && IsChild(p, d)
      requires Reaches(c, y, n) && Reaches(d, y, n + k)
      ensures c == d
    {
      SameLine(c, d, y, n, k);
      if k > 0 {
        var q :| IsChild(q, c) && Reaches(d, q, k - 1);
        OneParent(p, q, c);
        assert Reaches(d, d, k);
        assert IsBelow(d, d);
        assert false;
      }
    }

    /** The subtrees of different children share no folder. */
    lemma SiblingsDisjoint(p: string, c: string, d: string)
      requires UniqueIds() && AcyclicFrom(c) && AcyclicFrom(d) && IsChild(p, c) && IsChild(p, d) && c != d
      ensures Tree(c) !! Tree(d)
    {
      forall y | y in Tree(c) && y in Tree(d) ensures false {
        var n := InTree(c, y);
        var m := InTree(d, y);
        if n <= m { SharedBelow(p, c, d, y, n, m - n); } else { SharedBelow(p, d, c, y, m, n - m); }
      }
    }

    lemma ChildrenDisjoint(p: string, c: string, d: string)
      requires UniqueIds() && AcyclicFrom(p) && IsChild(p, c) && IsChild(p, d) && c != d
      ensures Tree(c) !! Tree(d)
    {
      DescendantsShrink(p, c);
      DescendantsShrink(p, d);
      SiblingsDisjoint(p, c, d);
    }

    lemma ChildrenMeaning(p: string)
      requires UniqueIds()
      ensures forall i :: 0 <= i < |Children(p)| ==> IsChild(p, Children(p)[i].id)
      ensures forall i, j :: 0 <= i < j < |Children(p)| ==> Children(p)[i].id != Children(p)[j].id
      ensures forall c :: IsChild(p, c) ==> exists i :: 0 <= i < |Children(p)| && Children(p)[i].id == c
    {
      var cs := Children(p);
      FilterMeaning(rows, InFolder(user, p));
      forall i | 0 <= i < |cs| ensures IsChild(p, cs[i].id) { assert IsEdge(cs[i], p, cs[i].id); }
      FilterNoDups(rows, InFolder(user, p));
      forall i, j | 0 <= i < j < |cs| ensures cs[i].id != cs[j].id {
        var a :| 0 <= a < |rows| && rows[a] == cs[i];
        var b :| 0 <= b < |rows| && rows[b] == cs[j];
      }
      forall c | IsChild(p, c) ensures exists i :: 0 <= i < |cs| && cs[i].id == c {
        var r :| IsEdge(r, p, c);
        assert r in cs;
      }
    }

    // ---------- the order in which a recursion visits the folders below `p` ----------

    /** What is visited from the `i`-th child of `p` on: each subtree before its root. */
    ghost function PostOrderFrom(p: string, i: nat): seq<string>
      requires UniqueIds() && AcyclicFrom(p) && i <= |Children(p)|
      decreases |Descendants(p)|, |Children(p)| - i
    {
      if i == |Children(p)| then []
      else
        var c := Children(p)[i].id;
        ChildrenMeaning(p);
        DescendantsShrink(p, c);
        PostOrderFrom(c, 0) + [c] + PostOrderFrom(p, i + 1)
    }

    ghost function PostOrder(p: string): seq<string> requires UniqueIds() && AcyclicFrom(p) { PostOrderFrom(p, 0) }

    /** The same order for a recursion that stops opening calls after `limit` of them. */
    ghost function OrderFrom(p: string, limit: nat, i: nat): seq<string>
      requires i <= |Children(p)|
      decreases limit, |Children(p)| - i
    {
      if limit == 0 || i == |Children(p)| then []
      else OrderFrom(Children(p)[i].id, limit - 1, 0) + [Children(p)[i].id] + OrderFrom(p, limit, i + 1)
    }

    lemma {:induction false} FitsOrder(p: string, limit: nat, i: nat)
      requires UniqueIds() && Fits(p, limit) && i <= |Children(p)|
      ensures AcyclicFrom(p) && OrderFrom(p, limit, i) == PostOrderFrom(p, i)
      decreases limit, |Children(p)| - i
    {
      FitsAcyclic(p, limit);
      if i < |Children(p)| {
        ChildrenMeaning(p);
        FitsOrder(Children(p)[i].id, limit - 1, 0);
        FitsOrder(p, limit, i + 1);
        PostOrderUnfold(p, i);
      }
    }

    ghost function TreesFrom(p: string, i: nat): set<string> {
      set y | y in Ids() && exists j :: i <= j < |Children(p)| && y in Tree(Children(p)[j].id)
    }

    lemma TreesStep(p: string, i: nat)
      requires UniqueIds() && AcyclicFrom(p) && i < |Children(p)|
      ensures var c := Children(p)[i].id;
        TreesFrom(p, i) == Tree(c) + TreesFrom(p, i + 1) && Tree(c) !! TreesFrom(p, i + 1)
    {
      var cs := Children(p);
      ChildrenMeaning(p);
      ChildBelow(p, cs[i].id);
      forall j | i < j < |cs| ensures Tree(cs[i].id) !! Tree(cs[j].id) { ChildrenDisjoint(p, cs[i].id, cs[j].id); }
    }

    lemma TreesAll(p: string)
      requires UniqueIds() && AcyclicFrom(p)
      ensures TreesFrom(p, 0) == Descendants(p)
    {
      forall y | y in TreesFrom(p, 0) ensures y in Descendants(p) {
        var j :| 0 <= j < |Children(p)| && y in Tree(Children(p)[j].id);
        ChildrenMeaning(p);
        ChildBelow(p, Children(p)[j].id);
        if y != Children(p)[j].id { BelowTrans(p, Children(p)[j].id, y); }
      }
      forall y | y in Descendants(p) ensures y in TreesFrom(p, 0) { BelowViaChild(p, y); }
    }

    lemma BelowViaChild(p: string, y: string)
      requires UniqueIds() && y in Descendants(p)
      ensures y in TreesFrom(p, 0)
    {
      ChildrenMeaning(p);
      var n :| n >= 1 && Reaches(p, y, n);
      var c := FirstStep(p, y, n);
      var j :| 0 <= j < |Children(p)| && Children(p)[j].id == c;
      assert n > 1 ==> IsBelow(c, y);
      assert y in Tree(Children(p)[j].id);
    }

    /** The recursion visits exactly the folders below, each once. */
    lemma {:induction false} PostOrderElements(p: string, i: nat)
      requires UniqueIds() && AcyclicFrom(p) && i <= |Children(p)|
      ensures Elements(PostOrderFrom(p, i)) == TreesFrom(p, i) && NoDups(PostOrderFrom(p, i))
      decreases |Descendants(p)|, |Children(p)| - i
    {
      if i < |Children(p)| {
        var c := Children(p)[i].id;
        ChildrenMeaning(p);
        DescendantsShrink(p, c);
        PostOrderElements(c, 0);
        PostOrderElements(p, i + 1);
        PostOrderUnfold(p, i);
        TreesJoin(p, i, PostOrderFrom(c, 0), PostOrderFrom(p, i + 1));
      } else {
        assert PostOrderFrom(p, i) == [];
      }
    }

    lemma PostOrderUnfold(p: string, i: nat)
      requires UniqueIds() && AcyclicFrom(p) && i < |Children(p)|
      ensures var c := Children(p)[i].id;
        AcyclicFrom(c) && PostOrderFrom(p, i) == PostOrderFrom(c, 0) + [c] + PostOrderFrom(p, i + 1)
    {
      ChildrenMeaning(p);
      DescendantsShrink(p, Children(p)[i].id);
    }

    lemma TreesJoin(p: string, i: nat, a: seq<string>, b: seq<string>)
      requires UniqueIds() && AcyclicFrom(p) && i < |Children(p)|
      requires Elements(a) == TreesFrom(Children(p)[i].id, 0) && NoDups(a)
      requires Elements(b) == TreesFrom(p, i + 1) && NoDups(b)
      ensures var s := a + [Children(p)[i].id] + b; Elements(s) == TreesFrom(p, i) && NoDups(s)
    {
      var c := Children(p)[i].id;
      ChildrenMeaning(p);
      DescendantsShrink(p, c);
      TreesAll(c);
      TreesStep(p, i);
      assert c !in Descendants(c);
      NoDupsJoin(a, c, b);
    }

    lemma {:induction false} ChildAt(p: string, k: nat, j: nat) returns (b: nat)
      requires UniqueIds() && AcyclicFrom(p) && k <= j < |Children(p)|
      ensures b < |PostOrderFrom(p, k)| && PostOrderFrom(p, k)[b] == Children(p)[j].id
      decreases |Children(p)| - k
    {
      PostOrderUnfold(p, k);
      var below := PostOrderFrom(Children(p)[k].id, 0);
      if k == j {
        b := |below|;
      } else {
        var later := ChildAt(p, k + 1, j);
        b := |below| + 1 + later;
      }
    }

    /** Siblings are visited in the order in which they are stored. */
    lemma {:induction false} SiblingsInOrder(p: string, k: nat, i: nat, j: nat) returns (a: nat, b: nat)
      requires UniqueIds() && AcyclicFrom(p) && k <= i < j < |Children(p)|
      ensures a < b < |PostOrderFrom(p, k)|
      ensures PostOrderFrom(p, k)[a] == Children(p)[i].id && PostOrderFrom(p, k)[b] == Children(p)[j].id
      decreases |Children(p)| - k
    {
      PostOrderUnfold(p, k);
      var below := PostOrderFrom(Children(p)[k].id, 0);
      if k == i {
        a := |below|;
        var later := ChildAt(p, k + 1, j);
        b := |below| + 1 + later;
      } else {
        var c, d := SiblingsInOrder(p, k + 1, i, j);
        a, b := |below| + 1 + c, |below| + 1 + d;
      }
    }

    /** Nothing is visited before a folder that lies below it. */
    ghost predicate LowerFirst(s: seq<string>) {
      forall i, j :: 0 <= i < |s| && 0 <= j < |s| && IsBelow(s[i], s[j]) ==> j < i
    }

    lemma {:induction false} PostOrderLowerFirst(p: string, i: nat)
      requires UniqueIds() && AcyclicFrom(p) && i <= |Children(p)|
      ensures LowerFirst(PostOrderFrom(p, i))
      decreases |Descendants(p)|, |Children(p)| - i
    {
      if i < |Children(p)| {
        var c := Children(p)[i].id;
        ChildrenMeaning(p);
        DescendantsShrink(p, c);
        PostOrderLowerFirst(c, 0);
        PostOrderLowerFirst(p, i + 1);
        PostOrderUnfold(p, i);
        PostOrderElements(c, 0);
        PostOrderElements(p, i + 1);
        TreesAll(c);
        TreesStep(p, i);
        LowerFirstJoin(PostOrderFrom(c, 0), c, PostOrderFrom(p, i + 1));
      } else {
        assert PostOrderFrom(p, i) == [];
      }
    }

    lemma LowerFirstJoin(a: seq<string>, c: string, b: seq<string>)
      requires AcyclicFrom(c) && LowerFirst(a) && LowerFirst(b)
      requires Elements(a) == Descendants(c) && Tree(c) !! Elements(b) && Elements(b) <= Ids()
      ensures LowerFirst(a + [c] + b)
    {
      var s := a + [c] + b;
      forall j | |a| < j < |s| ensures s[j] !in Tree(c) { assert s[j] in Elements(b); }
      forall i, j | 0 <= i < |s| && 0 <= j < |s| && IsBelow(s[i], s[j]) ensures j < i {
        if i <= |a| {
          assert s[i] in Tree(c) by { assert i < |a| ==> s[i] in Elements(a); }
          TreeClosed(c, s[i], s[j]);
          if i < |a| && j == |a| {
            assert s[i] in Elements(a);
            BelowTrans(c, s[i], c);
            assert false;
          }
        } else if j > |a| {
          assert b[i - |a| - 1] == s[i] && b[j - |a| - 1] == s[j];
        }
      }
    }

    lemma TreeClosed(c: string, x: string, y: string)
      requires x in Tree(c) && IsBelow(x, y)
      ensures y in Tree(c)
    {
      if x != c { BelowTrans(c, x, y); }
      var n :| n >= 1 && Reaches(x, y, n);
      ReachesId(x, y, n);
    }
  }

  lemma NoDupsJoin(a: seq<string>, c: string, b: seq<string>)
    requires NoDups(a) && NoDups(b) && c !in Elements(a) && ({c} + Elements(a)) !! Elements(b)
    ensures NoDups(a + [c] + b) && Elements(a + [c] + b) == Elements(a) + {c} + Elements(b)
  {
    var s := a + [c] + b;
    forall i, j | 0 <= i < j < |s| ensures s[i] != s[j] {
      if j > |a| {
        assert s[j] in Elements(b);
        assert i <= |a| ==> s[i] in {c} + Elements(a);
        assert i > |a| ==> s[i] == b[i - |a| - 1] && s[j] == b[j - |a| - 1];
      } else {
        assert s[i] in Elements(a);
      }
    }
  }
}
