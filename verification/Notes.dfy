/** Streaming the notes a user may see, page by page (models/notes.py). */
module Notes {
  import opened Lists

  /** Who may do what with a note; no access control is a public note. */
  datatype Access = Access(users: seq<string>, groups: seq<string>)

  datatype Note = Note(id: string, user: string, access: Option<map<string, Access>>)

  /** has_access on a note that has an access control. */
  predicate Granted(access: map<string, Access>, user: string, permission: string, groups: set<string>) {
    permission in access
    && (user in access[permission].users || exists g :: g in groups && g in access[permission].groups)
  }

  predicate Permitted(n: Note, user: string, permission: string, groups: set<string>) {
    if n.user == user then true
    else if n.access.None? then permission == "read"
    else Granted(n.access.value, user, permission, groups)
  }

  function MayUse(user: string, permission: string, groups: set<string>): Note -> bool {
    (n: Note) => Permitted(n, user, permission, groups)
  }

  function Skipped(skip: Option<int>): nat { if skip.Some? && skip.value > 0 then skip.value else 0 }

  /** The limit is tested after a note was added, so it never cuts below one. */
  function Taken(limit: Option<int>, available: nat): nat {
    if limit.None? then available else Min(available, if limit.value >= 1 then limit.value else 1)
  }

  /** `notes[skip:skip + limit]`. */
  function Page(notes: seq<Note>, skip: Option<int>, limit: Option<int>): seq<Note> {
    var rest := notes[Min(Skipped(skip), |notes|)..];
    rest[..Taken(limit, |rest|)]
  }

  /** get_notes_by_permission over the notes as the query yields them. */
  method GetNotes(notes: seq<Note>, user: string, permission: string, groups: set<string>,
                  skip: Option<int>, limit: Option<int>)
    returns (results: seq<Note>)
    ensures results == Page(Filter(notes, MayUse(user, permission, groups)), skip, limit)
  {
    ghost var p := MayUse(user, permission, groups);
    results := [];
    var skipped := 0;
    var i := 0;
    while i < |notes|
      invariant 0 <= i <= |notes|
      invariant skipped == Min(Skipped(skip), |Filter(notes[..i], p)|)
      invariant results == Filter(notes[..i], p)[skipped..]
      invariant limit.Some? ==> results == [] || |results| < limit.value
    {
      var note := notes[i];
      FilterNext(notes, i, p);
      i := i + 1;
      if !Permitted(note, user, permission, groups) { continue; }
      if skip.Some? && skip.value != 0 && skipped < skip.value {
        skipped := skipped + 1;
        continue;
      }
      results := results + [note];
      if limit.Some? && |results| >= limit.value {
        FilterPrefix(notes, i, p);
        PageOfPrefix(Filter(notes[..i], p), Filter(notes, p), skip, limit.value, results);
        return;
      }
    }
    assert notes[..i] == notes;
  }

  /** The page is full as soon as a prefix yields its last note. */
  lemma PageOfPrefix(prefix: seq<Note>, all: seq<Note>, skip: Option<int>, limit: int, results: seq<Note>)
    requires prefix <= all && Skipped(skip) <= |prefix| && results == prefix[Skipped(skip)..]
    requires |results| == if limit >= 1 then limit else 1
    ensures results == Page(all, skip, Some(limit))
  {
    assert all[Skipped(skip)..][..|results|] == prefix[Skipped(skip)..];
  }

  lemma FilterNext(notes: seq<Note>, i: nat, p: Note -> bool)
    requires i < |notes|
    ensures Filter(notes[..i + 1], p) == Filter(notes[..i], p) + (if p(notes[i]) then [notes[i]] else [])
  {
    assert notes[..i + 1] == notes[..i] + [notes[i]];
    FilterConcat(notes[..i], [notes[i]], p);
  }

  lemma FilterPrefix(notes: seq<Note>, i: nat, p: Note -> bool)
    requires i <= |notes|
    ensures Filter(notes[..i], p) <= Filter(notes, p)
  {
    assert notes == notes[..i] + notes[i..];
    FilterConcat(notes[..i], notes[i..], p);
  }

  /** The loop is "drop skip, take limit" exactly when the limit is at least one or nothing is left after the skip. */
  lemma TakesLimit(notes: seq<Note>, skip: Option<int>, limit: int)
    ensures var rest := notes[Min(Skipped(skip), |notes|)..];
      (Page(notes, skip, Some(limit)) == rest[..Min(if limit > 0 then limit else 0, |rest|)])
      <==> (limit >= 1 || rest == [])
  {
  }

  /** Without a limit it is "drop skip", and without either everything; a skip below zero skips nothing. */
  lemma TakesAll(notes: seq<Note>, skip: Option<int>)
    ensures skip.None? || skip.value <= 0 ==> Page(notes, skip, None) == notes
    ensures skip.Some? && 0 <= skip.value <= |notes| ==> Page(notes, skip, None) == notes[skip.value..]
    ensures skip.Some? && skip.value >= |notes| ==> Page(notes, skip, None) == []
  {
  }

  /** A limit takes that many of what it would take without, and at least one. */
  lemma LimitTakes(notes: seq<Note>, skip: Option<int>, limit: int)
    ensures var all := Page(notes, skip, None);
      Page(notes, skip, Some(limit)) == if limit >= 1 then all[..Min(limit, |all|)] else all[..Min(1, |all|)]
  {
  }

  /** A note is permitted to its owner, to everyone for reading when it has no access control, and else to the users and
      groups that its access control lists under the permission. */
  lemma PermittedExactly(n: Note, user: string, permission: string, groups: set<string>)
    ensures Permitted(n, user, permission, groups) <==>
      || n.user == user
      || (n.access.None? && permission == "read")
      || (n.access.Some? && permission in n.access.value
          && (user in n.access.value[permission].users
              || exists g :: g in n.access.value[permission].groups && g in groups))
  {
  }

  /** The first `n` pages of size `k`, one after the other. */
  function Pages(notes: seq<Note>, k: int, n: nat): seq<Note> {
    if n == 0 then [] else Pages(notes, k, n - 1) + Page(notes, Some((n - 1) * k), Some(k))
  }

  /** Consecutive pages give the permitted notes without gap or repeat. */
  lemma {:induction false} PagesTile(notes: seq<Note>, k: int, n: nat)
    requires k >= 1
    ensures n * k >= 0 && Pages(notes, k, n) == notes[..Min(n * k, |notes|)]
  {
    if n > 0 {
      PagesTile(notes, k, n - 1);
      var a := (n - 1) * k;
      assert n * k == a + k;
      NextPage(notes, a, k);
    }
  }

  lemma NextPage(notes: seq<Note>, a: nat, k: nat)
    requires k >= 1
    ensures notes[..Min(a, |notes|)] + Page(notes, Some(a), Some(k)) == notes[..Min(a + k, |notes|)]
  {
  }
}
