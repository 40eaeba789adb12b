/** Which collections get_sources_from_items queries, and for which item (retrieval/utils.py). */
module Sources {
  import opened Lists

  /** The attached item, reduced to what the loop tests. `full` stands for full context or bypassed retrieval. */
  datatype Item =
    | TextItem(full: bool, hasFile: bool, collection: string)
    | NoteItem(readable: bool)
    | ChatItem(readable: bool)
    | UrlItem(hasDocs: bool)
    | FileItem(full: bool, hasContent: bool, stored: bool, legacy: bool, id: string)
    | CollectionItem(full: bool, readable: bool, legacy: bool, id: string, names: seq<string>)
    | DocsItem
    | NamedItem(name: string)
    | NamesItem(names: seq<string>)
    | OtherItem

  /** Whether the item brings its own content, so that nothing is retrieved for it. */
  predicate Direct(item: Item) {
    match item
    case TextItem(full, hasFile, collection) => (full && hasFile) || collection == ""
    case NoteItem(readable) => readable
    case ChatItem(readable) => readable
    case UrlItem(hasDocs) => hasDocs
    case FileItem(full, hasContent, stored, _, _) => full && (hasContent || stored)
    case CollectionItem(full, readable, _, _, _) => full && readable
    case DocsItem => true
    case _ => false
  }

  function CollectionNames(item: Item): seq<string> {
    match item
    case TextItem(full, hasFile, collection) => if (full && hasFile) || collection == "" then [] else [collection]
    case FileItem(full, _, _, legacy, id) => if full then [] else if legacy then [id] else ["file-" + id]
    case CollectionItem(full, _, legacy, id, names) => if full then [] else if legacy then names else [id]
    case NamedItem(name) => if name == "" then [] else [name]
    case NamesItem(names) => names
    case _ => []
  }

  function Requests(item: Item): set<string> {
    if Direct(item) then {} else Elements(CollectionNames(item))
  }

  function Requested(items: seq<Item>): set<string> {
    if items == [] then {} else Requested(items[..|items| - 1]) + Requests(items[|items| - 1])
  }

  /** The item asks for the collection: a text's own one, a file's by its id, a collection's by its id or its old names,
      or one it names. */
  ghost predicate Asks(item: Item, c: string) {
    || (item.TextItem? && !(item.full && item.hasFile) && c == item.collection != "")
    || (item.FileItem? && !item.full && c == (if item.legacy then item.id else "file-" + item.id))
    || (item.CollectionItem? && !item.full && (if item.legacy then c in item.names else c == item.id))
    || (item.NamedItem? && c == item.name != "")
    || (item.NamesItem? && c in item.names)
  }

  /** It brings content: a text with a file in full context or without collection, a readable note or chat, a page with
      documents, a file in full with content at hand or stored, a readable collection in full, or given documents. */
  ghost predicate Brings(item: Item) {
    || (item.TextItem? && (item.collection == "" || (item.full && item.hasFile)))
    || ((item.NoteItem? || item.ChatItem?) && item.readable)
    || (item.UrlItem? && item.hasDocs)
    || (item.FileItem? && item.full && (item.hasContent || item.stored))
    || (item.CollectionItem? && item.full && item.readable)
    || item.DocsItem?
  }

  lemma RequestsExactly(item: Item, c: string)
    ensures c in Requests(item) <==> Asks(item, c)
    ensures Direct(item) <==> Brings(item)
  {
  }

  /** What item `i` is left to query: its requests that no earlier item made. */
  function Fresh(items: seq<Item>, i: nat): set<string> requires i < |items| {
    Requests(items[i]) - Requested(items[..i])
  }

  function Handed(items: seq<Item>): seq<set<string>> {
    if items == [] then []
    else
      var n := |items| - 1;
      Handed(items[..n]) + (if Fresh(items, n) == {} then [] else [Fresh(items, n)])
  }

  function Queries<R>(fullContext: bool, hybrid: bool, getAll: set<string> -> Option<R>,
      hybridQuery: set<string> -> Option<R>, plainQuery: set<string> -> Option<R>, c: set<string>): Option<R> {
    if fullContext then getAll(c) else if hybrid then hybridQuery(c) else plainQuery(c)
  }

  /** The items that become a source: their own content, or a query that answered. */
  function Answering<R>(items: seq<Item>, query: set<string> -> Option<R>): seq<nat> {
    if items == [] then []
    else
      var n := |items| - 1;
      Answering(items[..n], query)
      + (if Direct(items[n]) || (Fresh(items, n) != {} && query(Fresh(items, n)).Some?) then [n] else [])
  }

  /** One retrieval; None when it fails. A failing hybrid query is not retried without hybrid search. */
  method Retrieve<R>(fullContext: bool, hybrid: bool, getAll: set<string> -> Option<R>,
      hybridQuery: set<string> -> Option<R>, plainQuery: set<string> -> Option<R>, c: set<string>)
    returns (result: Option<R>)
    ensures fullContext ==> result == getAll(c)
    ensures !fullContext && hybrid ==> result == hybridQuery(c)
    ensures !fullContext && !hybrid ==> result == plainQuery(c)
  {
    result := None;
    if fullContext {
      result := getAll(c);
    } else {
      if hybrid { result := hybridQuery(c); }
      if !hybrid && result.None? { result := plainQuery(c); }
    }
  }

  lemma PrefixSteps<R>(items: seq<Item>, i: nat, query: set<string> -> Option<R>)
    requires i < |items|
    ensures Requested(items[..i + 1]) == Requested(items[..i]) + Fresh(items, i)
    ensures Direct(items[i]) || CollectionNames(items[i]) == [] ==> Fresh(items, i) == {}
    ensures Handed(items[..i + 1]) == Handed(items[..i]) + (if Fresh(items, i) == {} then [] else [Fresh(items, i)])
    ensures Answering(items[..i + 1], query) == Answering(items[..i], query)
      + (if Direct(items[i]) || (Fresh(items, i) != {} && query(Fresh(items, i)).Some?) then [i] else [])
  {
    assert items[..i + 1][..i] == items[..i];
    assert Fresh(items[..i + 1], i) == Fresh(items, i);
    assert CollectionNames(items[i]) == [] ==> Elements(CollectionNames(items[i])) == {};
  }

  /** The item loop over `extracted_collections`. */
  method GetSources<R>(items: seq<Item>, fullContext: bool, hybrid: bool, getAll: set<string> -> Option<R>,
      hybridQuery: set<string> -> Option<R>, plainQuery: set<string> -> Option<R>)
    returns (handed: seq<set<string>>, sources: seq<nat>)
    ensures handed == Handed(items)
    ensures sources == Answering(items, c => Queries(fullContext, hybrid, getAll, hybridQuery, plainQuery, c))
  {
    ghost var query := c => Queries(fullContext, hybrid, getAll, hybridQuery, plainQuery, c);
    var extracted: seq<string> := [];
    handed, sources := [], [];
    for i := 0 to |items|
      invariant handed == Handed(items[..i])
      invariant sources == Answering(items[..i], query)
      invariant Elements(extracted) == Requested(items[..i])
    {
      PrefixSteps(items, i, query);
      var answered := Direct(items[i]);
      var names := CollectionNames(items[i]);
      if !answered && names != [] {
        var unseen := Elements(names) - Elements(extracted);
        assert unseen == Fresh(items, i);
        if unseen == {} { continue; }
        var result := Retrieve(fullContext, hybrid, getAll, hybridQuery, plainQuery, unseen);
        handed := handed + [unseen];
        answered := result.Some?;
        extracted := Extend(extracted, unseen);
      }
      if answered { sources := sources + [i]; }
    }
    assert items[..|items|] == items;
  }

  method Extend(s: seq<string>, more: set<string>) returns (r: seq<string>)
    ensures Elements(r) == Elements(s) + more
  {
    r := s;
    var todo := more;
    while todo != {}
      invariant todo <= more && Elements(r) == Elements(s) + (more - todo)
    {
      var x :| x in todo;
      assert Elements(r + [x]) == Elements(r) + {x};
      r, todo := r + [x], todo - {x};
    }
  }

  ghost function Union(sets: seq<set<string>>): set<string> {
    if sets == [] then {} else Union(sets[..|sets| - 1]) + sets[|sets| - 1]
  }

  lemma UnionSnoc(sets: seq<set<string>>, c: set<string>)
    ensures Union(sets + [c]) == Union(sets) + c
  {
  }

  lemma {:induction false} UnionHas(sets: seq<set<string>>)
    ensures forall i :: 0 <= i < |sets| ==> sets[i] <= Union(sets)
  {
    if sets != [] { UnionHas(sets[..|sets| - 1]); }
  }

  lemma {:induction false} HandedUnion(items: seq<Item>)
    ensures Union(Handed(items)) == Requested(items)
  {
    if items != [] {
      var n := |items| - 1;
      HandedUnion(items[..n]);
      UnionSnoc(Handed(items[..n]), Fresh(items, n));
      assert Handed(items[..n]) + [] == Handed(items[..n]);
    }
  }

  lemma {:induction false} RequestedMeaning(items: seq<Item>, c: string)
    ensures c in Requested(items) <==> exists i :: 0 <= i < |items| && Asks(items[i], c)
  {
    if items != [] {
      var n := |items| - 1;
      RequestedMeaning(items[..n], c);
      RequestsExactly(items[n], c);
      assert forall i :: 0 <= i < n ==> items[..n][i] == items[i];
    }
  }

  /** What an item has queried is what it asks for and no earlier item does. */
  lemma FreshMeaning(items: seq<Item>, i: nat, c: string)
    requires i < |items|
    ensures c in Fresh(items, i) <==> Asks(items[i], c) && forall j :: 0 <= j < i ==> !Asks(items[j], c)
  {
    RequestsExactly(items[i], c);
    RequestedMeaning(items[..i], c);
    assert forall j :: 0 <= j < i ==> items[..i][j] == items[j];
  }

  /** An item becomes a source exactly when it brings content, or has something left to query and that answers. */
  lemma {:induction false} AnsweringMeaning<R>(items: seq<Item>, query: set<string> -> Option<R>, i: nat)
    ensures i in Answering(items, query) <==>
      i < |items| && (Brings(items[i]) || (Fresh(items, i) != {} && query(Fresh(items, i)).Some?))
  {
    if items != [] {
      var n := |items| - 1;
      AnsweringMeaning(items[..n], query, i);
      RequestsExactly(items[n], "");
      if i < n { assert items[..n][..i] == items[..i]; }
    }
  }

  /** The sources keep the order of the items. */
  lemma {:induction false} SourcesInOrder<R>(items: seq<Item>, query: set<string> -> Option<R>)
    ensures Increasing(Answering(items, query))
  {
    if items != [] {
      var n := |items| - 1;
      var before := Answering(items[..n], query);
      SourcesInOrder(items[..n], query);
      forall a | 0 <= a < |before| ensures before[a] < n { AnsweringMeaning(items[..n], query, before[a]); }
      assert Increasing(before + [n]);
    }
  }

  ghost predicate HandsOut(items: seq<Item>, i: nat, c: set<string>) {
    i < |items| && c == Fresh(items, i) && c != {}
  }

  lemma HandsOutLast(items: seq<Item>, c: set<string>)
    requires items != []
    ensures var n := |items| - 1;
      (exists i :: HandsOut(items, i, c)) <==> (exists i :: HandsOut(items[..n], i, c)) || HandsOut(items, n, c)
  {
    var n := |items| - 1;
    forall i: nat | i < n ensures HandsOut(items[..n], i, c) <==> HandsOut(items, i, c) {
      assert items[..n][..i] == items[..i];
    }
    if i: nat :| HandsOut(items, i, c) && i != n { assert HandsOut(items[..n], i, c); }
    if i: nat :| HandsOut(items[..n], i, c) { assert HandsOut(items, i, c); }
  }

  /** The queries are what the items have left to query, leaving out items that have nothing. */
  lemma {:induction false} HandedMeaning(items: seq<Item>, c: set<string>)
    ensures c in Handed(items) <==> exists i :: HandsOut(items, i, c)
  {
    if items != [] {
      HandedMeaning(items[..|items| - 1], c);
      HandsOutLast(items, c);
    }
  }

  /** Every collection asked for is queried, and none twice, whichever queries fail. */
  lemma {:induction false} EachCollectionOnce(items: seq<Item>)
    ensures forall c :: c in Union(Handed(items)) <==> exists i :: 0 <= i < |items| && Asks(items[i], c)
    ensures forall i, j :: 0 <= i < j < |Handed(items)| ==> Handed(items)[i] !! Handed(items)[j]
  {
    HandedUnion(items);
    forall c ensures c in Requested(items) <==> exists i :: 0 <= i < |items| && Asks(items[i], c) {
      RequestedMeaning(items, c);
    }
    HandedDisjoint(items);
  }

  lemma {:induction false} HandedDisjoint(items: seq<Item>)
    ensures forall i, j :: 0 <= i < j < |Handed(items)| ==> Handed(items)[i] !! Handed(items)[j]
  {
    if items != [] {
      var n := |items| - 1;
      HandedDisjoint(items[..n]);
      HandedUnion(items[..n]);
      UnionHas(Handed(items[..n]));
    }
  }
}
