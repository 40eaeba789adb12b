/** Persistent settings, their stored document and the Redis overlay (config.py). */
module ConfigStore {
  import opened Lists
  import opened ConfigDoc
  import Names

  /** A registered setting: its path in the document and its environment default. */
  datatype Entry = Entry(path: Path, env: Json)

  type Registry = map<string, Entry>

  /** Paths are not empty and none lies on the line of another. */
  ghost predicate Registered(reg: Registry) {
    && (forall k :: k in reg ==> reg[k].path != [])
    && (forall k, l :: k in reg && l in reg && k != l ==> Incomparable(reg[k].path, reg[l].path))
  }

  /** The value a setting starts with; None when the lookup raises. */
  function Load(doc: Json, e: Entry, persistent: bool, oauthPersistent: bool): Option<Json> {
    match Get(doc, e.path)
    case TypeError => None
    case Absent => Some(e.env)
    case Value(v) =>
      Some(if v != Null && persistent && (oauthPersistent || !UnderOauth(e.path)) then v else e.env)
  }

  /** `config_path.startswith("oauth.")`; the path is split at its dots. */
  predicate UnderOauth(path: Path) { "oauth." <= Names.Join(path, ".") }

  /** On keys without dots: the first of several keys is "oauth". */
  lemma UnderOauthMeaning(path: Path)
    requires path != [] && forall i, j :: 0 <= i < |path| && 0 <= j < |path[i]| ==> path[i][j] != '.'
    ensures UnderOauth(path) <==> |path| >= 2 && path[0] == "oauth"
  {
    var text := Names.Join(path, ".");
    if |path| == 1 {
      assert text == path[0];
      NoDot(text);
    } else {
      assert text == path[0] + "." + Names.Join(path[1..], ".");
      FirstDot(text, |path[0]|);
      assert text[..|path[0]|] == path[0];
    }
  }

  lemma NoDot(s: string)
    requires forall i :: 0 <= i < |s| ==> s[i] != '.'
    ensures !("oauth." <= s)
  {
    assert |s| > 5 ==> s[5] != "oauth."[5];
  }

  lemma FirstDot(s: string, n: nat)
    requires n < |s| && s[n] == '.' && forall i :: 0 <= i < n ==> s[i] != '.'
    ensures "oauth." <= s <==> s[..n] == "oauth"
  {
    assert "oauth."[5] == '.' && forall i :: 0 <= i < 5 ==> "oauth."[i] != '.';
    if s[..n] == "oauth" { assert s[..n + 1] == "oauth."; }
    if "oauth." <= s {
      assert forall i :: 0 <= i < 6 ==> s[i] == "oauth."[i];
      assert n == 5;
      assert s[..5] == "oauth."[..5] == "oauth";
    }
  }

  /** The setting starts with what is stored when that is not null, settings persist and the oauth exception does not
      apply, and otherwise, in particular with nothing stored, with its environment default. */
  ghost predicate StartsWith(e: Entry, stored: Lookup, persistent: bool, oauthPersistent: bool, v: Json) {
    && (stored.Value? && stored.json != Null && persistent && (oauthPersistent || !UnderOauth(e.path)) ==>
          v == stored.json)
    && (stored.Absent? || stored == Value(Null) || !persistent || (UnderOauth(e.path) && !oauthPersistent) ==>
          v == e.env)
  }

  /** Start-up: every registered setting is looked up in the stored document; None when a lookup raises. */
  method LoadAll(reg: Registry, order: seq<string>, doc: Json, persistent: bool, oauthPersistent: bool)
    returns (values: Option<map<string, Json>>)
    requires Elements(order) == reg.Keys
    ensures values.Some? <==> forall k :: k in reg ==> !Get(doc, reg[k].path).TypeError?
    ensures values.Some? ==> values.value.Keys == reg.Keys
    ensures values.Some? ==>
      forall k :: k in reg ==> StartsWith(reg[k], Get(doc, reg[k].path), persistent, oauthPersistent, values.value[k])
  {
    var loaded: map<string, Json> := map[];
    for i := 0 to |order|
      invariant loaded.Keys == Elements(order[..i])
      invariant forall k :: k in loaded ==> k in reg && !Get(doc, reg[k].path).TypeError?
      invariant forall k :: k in loaded ==>
        StartsWith(reg[k], Get(doc, reg[k].path), persistent, oauthPersistent, loaded[k])
    {
      var key := order[i];
      assert key in Elements(order) && order[..i + 1] == order[..i] + [key];
      var found := GetConfigValue(doc, reg[key].path);
      if found.TypeError? { return None; }
      var stored := found.Value? && found.json != Null && persistent && (oauthPersistent || !UnderOauth(reg[key].path));
      loaded := loaded[key := if stored then found.json else reg[key].env];
    }
    assert order[..|order|] == order;
    return Some(loaded);
  }

  /** One process: its CONFIG_DATA and the current values of its settings. */
  datatype Process = Process(doc: Json, values: map<string, Json>)

  /** Assigning a setting: the value first, then the document, unless the path is blocked. */
  function Assigned(reg: Registry, p: Process, key: string, v: Json): Process
    requires key in reg && reg[key].path != []
  {
    var doc := Set(p.doc, reg[key].path, v);
    Process(if doc.Some? then doc.value else p.doc, p.values[key := v])
  }

  // ---------- bulk import ----------

  /** The update pass over the registry; it stops at the first lookup that raises. */
  function Updated(reg: Registry, doc: Json, order: seq<string>, values: map<string, Json>): (map<string, Json>, bool)
    requires forall k :: k in order ==> k in reg
  {
    if order == [] then (values, true)
    else match Get(doc, reg[order[0]].path)
      case TypeError => (values, false)
      case Value(v) => Updated(reg, doc, order[1..], if v != Null then values[order[0] := v] else values)
      case Absent => Updated(reg, doc, order[1..], values)
  }

  /** The update pass gets to the setting: no lookup raises up to and including it. */
  ghost predicate Reached(reg: Registry, doc: Json, order: seq<string>, key: string)
    requires forall k :: k in order ==> k in reg
  {
    exists n :: 0 <= n < |order| && order[n] == key && NoneRaises(reg, doc, order, n)
  }

  ghost predicate NoneRaises(reg: Registry, doc: Json, order: seq<string>, n: nat)
    requires n < |order| && forall k :: k in order ==> k in reg
  {
    forall m :: 0 <= m <= n ==> !Get(doc, reg[order[m]].path).TypeError?
  }

  /** The value an import brings for a setting: a stored one that is not null and that the update pass gets to. */
  ghost function Imported(reg: Registry, doc: Json, order: seq<string>, key: string): Option<Json> {
    if key in reg && (forall k :: k in order ==> k in reg) && Reached(reg, doc, order, key)
       && Get(doc, reg[key].path).Value? && Get(doc, reg[key].path).json != Null
    then Some(Get(doc, reg[key].path).json) else None
  }

  lemma ReachedStep(reg: Registry, doc: Json, order: seq<string>, key: string)
    requires order != [] && forall k :: k in order ==> k in reg
    ensures Reached(reg, doc, order, key)
      <==> !Get(doc, reg[order[0]].path).TypeError? && (order[0] == key || Reached(reg, doc, order[1..], key))
  {
    if !Get(doc, reg[order[0]].path).TypeError? && Reached(reg, doc, order[1..], key) {
      var n :| 0 <= n < |order[1..]| && order[1..][n] == key && NoneRaises(reg, doc, order[1..], n);
      forall m | 0 <= m <= n + 1 ensures !Get(doc, reg[order[m]].path).TypeError? {
        if m > 0 { assert order[m] == order[1..][m - 1]; }
      }
      assert order[n + 1] == key;
    }
    if Reached(reg, doc, order, key) && order[0] != key {
      var n :| 0 <= n < |order| && order[n] == key && NoneRaises(reg, doc, order, n);
      assert order[1..][n - 1] == key;
      assert forall m :: 0 <= m <= n - 1 ==> order[1..][m] == order[m + 1];
    }
  }

  lemma {:induction false} UpdatedKeys(reg: Registry, doc: Json, order: seq<string>, values: map<string, Json>)
    requires forall k :: k in order ==> k in reg && k in values
    ensures Updated(reg, doc, order, values).0.Keys == values.Keys
    ensures Updated(reg, doc, order, values).1 <==> forall k :: k in order ==> !Get(doc, reg[k].path).TypeError?
  {
    if order != [] {
      var k := order[0];
      assert forall x :: x in order <==> x == k || x in order[1..];
      match Get(doc, reg[k].path)
      case TypeError =>
      case Value(v) => UpdatedKeys(reg, doc, order[1..], if v != Null then values[k := v] else values);
      case Absent => UpdatedKeys(reg, doc, order[1..], values);
    }
  }

  /** After an import, whether it fails half way or not, each setting has what the import brought it, and otherwise the
      value it had. */
  lemma {:induction false} UpdatedMeaning(reg: Registry, doc: Json, order: seq<string>, values: map<string, Json>,
                                          key: string)
    requires key in reg && key in values && forall k :: k in order ==> k in reg
    ensures key in Updated(reg, doc, order, values).0
    ensures Updated(reg, doc, order, values).0[key] ==
      if Imported(reg, doc, order, key).Some? then Imported(reg, doc, order, key).value else values[key]
  {
    if order != [] {
      ReachedStep(reg, doc, order, key);
      match Get(doc, reg[order[0]].path)
      case TypeError =>
      case Value(v) => UpdatedMeaning(reg, doc, order[1..], if v != Null then values[order[0] := v] else values, key);
      case Absent => UpdatedMeaning(reg, doc, order[1..], values, key);
    }
  }

  // ---------- the objects ----------

  class Database {
    var data: Json
    constructor (data: Json) ensures this.data == data { this.data := data; }
  }

  class SharedRedis {
    var entries: map<string, Json>
    constructor () ensures entries == map[] { entries := map[]; }
  }

  class AppConfig {
    const registry: Registry
    const order: seq<string>
    const database: Database
    const redis: SharedRedis?
    var doc: Json
    var values: map<string, Json>

    ghost predicate Valid() reads this {
      && Registered(registry) && registry.Keys == values.Keys == Elements(order)
    }

    function State(): Process reads this { Process(doc, values) }

    constructor (registry: Registry, order: seq<string>, values: map<string, Json>, database: Database,
                 redis: SharedRedis?)
      requires Registered(registry) && registry.Keys == values.Keys == Elements(order)
      ensures Valid() && this.registry == registry && this.database == database && this.redis == redis
      ensures State() == Process(database.data, values)
    {
      this.registry, this.order, this.database, this.redis := registry, order, database, redis;
      doc, this.values := database.data, values;
    }

    /** __setattr__; false when the save raises, which leaves document, database and Redis alone. */
    method SetAttr(key: string, v: Json) returns (saved: bool)
      requires Valid() && key in registry
      modifies this, database, redis
      ensures Valid()
      ensures State() == Assigned(registry, old(State()), key, v)
      ensures saved <==> Clear(old(doc), registry[key].path)
      ensures database.data == if saved then doc else old(database.data)
      ensures redis != null ==> redis.entries == if saved then old(redis.entries)[key := v] else old(redis.entries)
    {
      values := values[key := v];
      SetDefined(doc, registry[key].path, v);
      var changed := Set(doc, registry[key].path, v);
      saved := changed.Some?;
      if saved {
        doc := changed.value;
        database.data := doc;
        if redis != null { redis.entries := redis.entries[key := v]; }
      }
    }

    /** __getattr__: a value found in Redis replaces the one in memory. */
    method GetAttr(key: string) returns (v: Json)
      requires Valid() && key in registry
      modifies this
      ensures Valid() && doc == old(doc)
      ensures v == if redis != null && key in redis.entries then redis.entries[key] else old(values)[key]
      ensures values == old(values)[key := v]
    {
      if redis != null && key in redis.entries {
        if values[key] != redis.entries[key] { values := values[key := redis.entries[key]]; }
      }
      v := values[key];
      assert values == old(values)[key := v];
    }

    /** save_config. */
    method SaveConfig(config: Json) returns (ok: bool)
      requires Valid()
      modifies this, database
      ensures Valid() && doc == config && database.data == config
      ensures (values, ok) == Updated(registry, config, order, old(values))
    {
      database.data := config;
      doc := config;
      var i := 0;
      assert forall k :: k in order ==> k in Elements(order);
      while i < |order|
        invariant 0 <= i <= |order| && doc == config && database.data == config && values.Keys == registry.Keys
        invariant Updated(registry, config, order[i..], values) == Updated(registry, config, order, old(values))
      {
        assert order[i..][0] == order[i] && order[i..][1..] == order[i + 1..];
        var found := GetConfigValue(doc, registry[order[i]].path);
        if found.TypeError? { return false; }
        if found.Value? && found.json != Null { values := values[order[i] := found.json]; }
        i := i + 1;
      }
      return true;
    }
  }
}
