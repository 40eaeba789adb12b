/** Dotted paths in the nested configuration document (config.py). */
module ConfigDoc {
  import opened Lists

  datatype Json =
    | Null
    | Bool(b: bool)
    | Num(n: int)
    | Str(s: string)
    | List(items: seq<Json>)
    | Dict(entries: map<string, Json>)

  type Path = seq<string>

  datatype Lookup = Value(json: Json) | Absent | TypeError

  predicate Contains(s: string, part: string) { exists i :: 0 <= i <= |s| && part <= s[i..] }

  /** One step of the walk: `key in cur`, then `cur[key]`. */
  function Enter(cur: Json, key: string): Lookup {
    match cur
    case Dict(entries) => if key in entries then Value(entries[key]) else Absent
    case Str(s) => if Contains(s, key) then TypeError else Absent
    case List(items) => if Str(key) in items then TypeError else Absent
    case _ => TypeError
  }

  function Get(doc: Json, path: Path): Lookup {
    if path == [] then Value(doc)
    else match Enter(doc, path[0])
      case Value(sub) => Get(sub, path[1..])
      case other => other
  }

  /** The walk goes on from what the path so far leads to, and a longer path fails as its first failing part does. */
  lemma {:induction false} GetOneMore(doc: Json, path: Path, key: string)
    ensures Get(doc, path + [key]) == if Get(doc, path).Value? then Enter(Get(doc, path).json, key) else Get(doc, path)
    decreases |path|
  {
    if path == [] {
      assert [key][1..] == [];
    } else {
      assert (path + [key])[1..] == path[1..] + [key];
      if Enter(doc, path[0]).Value? { GetOneMore(Enter(doc, path[0]).json, path[1..], key); }
    }
  }

  /** A dict is entered at its keys only; a string or list is entered nowhere, raising where it holds the key; other
      values raise at once. */
  lemma EnterExactly(cur: Json, key: string, v: Json)
    ensures Enter(cur, key) == Value(v) <==> cur.Dict? && key in cur.entries && cur.entries[key] == v
    ensures Enter(cur, key) == Absent <==>
      (cur.Dict? && key !in cur.entries) || (cur.List? && Str(key) !in cur.items)
      || (cur.Str? && !exists a, b :: cur.s == a + key + b)
  {
    if cur.Str? { ContainsMeaning(cur.s, key); }
  }

  lemma ContainsMeaning(s: string, part: string)
    ensures Contains(s, part) <==> exists a, b :: s == a + part + b
  {
    if i :| 0 <= i <= |s| && part <= s[i..] { assert s == s[..i] + part + s[i + |part|..]; }
    if a, b :| s == a + part + b { assert part <= s[|a|..]; }
  }

  /** get_config_value. */
  method GetConfigValue(doc: Json, path: Path) returns (r: Lookup)
    ensures r == Get(doc, path)
  {
    var cur := doc;
    for i := 0 to |path|
      invariant Get(cur, path[i..]) == Get(doc, path)
    {
      assert path[i..][0] == path[i] && path[i..][1..] == path[i + 1..];
      var next := Enter(cur, path[i]);
      if !next.Value? { return next; }
      cur := next.json;
    }
    r := Value(cur);
  }

  /** PersistentConfig.save on the document: missing dicts are created, anything but a dict on the way raises. */
  function Set(doc: Json, path: Path, v: Json): Option<Json>
    requires path != []
    decreases |path|
  {
    if !doc.Dict? then None
    else if |path| == 1 then Some(Dict(doc.entries[path[0] := v]))
    else
      var sub := if path[0] in doc.entries then doc.entries[path[0]] else Dict(map[]);
      match Set(sub, path[1..], v)
      case None => None
      case Some(x) => Some(Dict(doc.entries[path[0] := x]))
  }

  /** No proper prefix of the path holds anything but a dict. */
  ghost predicate Clear(doc: Json, path: Path) {
    forall n :: 0 <= n < |path| && Get(doc, path[..n]).Value? ==> Get(doc, path[..n]).json.Dict?
  }

  ghost predicate Incomparable(p: Path, q: Path) { !(p <= q) && !(q <= p) }

  lemma GetDeeper(doc: Json, path: Path, n: nat)
    requires doc.Dict? && 0 < n <= |path|
    ensures Get(doc, path[..n]) ==
      if path[0] in doc.entries then Get(doc.entries[path[0]], path[1..][..n - 1]) else Absent
  {
    assert path[..n][1..] == path[1..][..n - 1];
  }

  lemma GetEmptyDict(path: Path)
    requires path != []
    ensures Get(Dict(map[]), path) == Absent
  {
  }

  lemma EmptyDictClear(path: Path)
    ensures Clear(Dict(map[]), path)
  {
  }

  /** Clearness, one step down. */
  lemma ClearStep(doc: Json, path: Path)
    requires |path| >= 1
    ensures Clear(doc, path) <==>
      doc.Dict? && (path[0] in doc.entries ==> Clear(doc.entries[path[0]], path[1..]))
  {
    if Clear(doc, path) {
      assert path[..0] == [];
      if path[0] in doc.entries {
        forall m | 0 <= m < |path[1..]| && Get(doc.entries[path[0]], path[1..][..m]).Value?
          ensures Get(doc.entries[path[0]], path[1..][..m]).json.Dict?
        {
          GetDeeper(doc, path, m + 1);
        }
      }
    }
    if doc.Dict? && (path[0] in doc.entries ==> Clear(doc.entries[path[0]], path[1..])) {
      forall n | 0 <= n < |path| && Get(doc, path[..n]).Value? ensures Get(doc, path[..n]).json.Dict? {
        if n > 0 { GetDeeper(doc, path, n); }
      }
    }
  }

  /** A write goes through exactly when the path is clear. */
  lemma {:induction false} SetDefined(doc: Json, path: Path, v: Json)
    requires path != []
    ensures Set(doc, path, v).Some? <==> Clear(doc, path)
    decreases |path|
  {
    ClearStep(doc, path);
    if doc.Dict? && |path| > 1 {
      var sub := if path[0] in doc.entries then doc.entries[path[0]] else Dict(map[]);
      SetDefined(sub, path[1..], v);
      EmptyDictClear(path[1..]);
    }
  }

  /** The written value is what the path then holds. */
  lemma {:induction false} GetSet(doc: Json, path: Path, v: Json)
    requires path != [] && Set(doc, path, v).Some?
    ensures Get(Set(doc, path, v).value, path) == Value(v)
    decreases |path|
  {
    if |path| > 1 {
      var sub := if path[0] in doc.entries then doc.entries[path[0]] else Dict(map[]);
      GetSet(sub, path[1..], v);
    } else {
      assert path[1..] == [];
    }
  }

  /** Below the written path lies what the value holds. */
  lemma {:induction false} GetSetBelow(doc: Json, path: Path, v: Json, q: Path)
    requires path != [] && Set(doc, path, v).Some?
    ensures Get(Set(doc, path, v).value, path + q) == Get(v, q)
    decreases |q|
  {
    if q == [] {
      GetSet(doc, path, v);
      assert path + q == path;
    } else {
      var front, last := q[..|q| - 1], q[|q| - 1];
      GetSetBelow(doc, path, v, front);
      assert path + q == (path + front) + [last] && q == front + [last];
      GetOneMore(Set(doc, path, v).value, path + front, last);
      GetOneMore(v, front, last);
    }
  }

  /** Paths that do not lie on one line with the written one keep what they held. */
  lemma {:induction false} GetSetOther(doc: Json, path: Path, v: Json, q: Path)
    requires path != [] && Set(doc, path, v).Some? && Incomparable(path, q)
    ensures Get(Set(doc, path, v).value, q) == Get(doc, q)
    decreases |path|
  {
    if q[0] == path[0] {
      Deeper(path, q);
      var sub := if path[0] in doc.entries then doc.entries[path[0]] else Dict(map[]);
      GetSetOther(sub, path[1..], v, q[1..]);
      GetEmptyDict(q[1..]);
    }
  }

  lemma Deeper(p: Path, q: Path)
    requires p != [] && q != [] && p[0] == q[0] && Incomparable(p, q)
    ensures Incomparable(p[1..], q[1..]) && |p| > 1 && |q| > 1
  {
  }

  /** A write leaves every incomparable path as clear or blocked as it was. */
  lemma {:induction false} ClearKept(doc: Json, path: Path, v: Json, q: Path)
    requires path != [] && Set(doc, path, v).Some? && Incomparable(path, q)
    ensures Clear(Set(doc, path, v).value, q) <==> Clear(doc, q)
    decreases |path|
  {
    var d := Set(doc, path, v).value;
    ClearStep(doc, q);
    ClearStep(d, q);
    if q[0] == path[0] {
      Deeper(path, q);
      var sub := if path[0] in doc.entries then doc.entries[path[0]] else Dict(map[]);
      EmptyDictClear(q[1..]);
      ClearKept(sub, path[1..], v, q[1..]);
    }
  }

  /** A written path stays clear. */
  lemma {:induction false} WrittenClear(doc: Json, path: Path, v: Json)
    requires path != [] && Set(doc, path, v).Some?
    ensures Clear(Set(doc, path, v).value, path)
    decreases |path|
  {
    var d := Set(doc, path, v).value;
    ClearStep(d, path);
    if |path| > 1 {
      var sub := if path[0] in doc.entries then doc.entries[path[0]] else Dict(map[]);
      WrittenClear(sub, path[1..], v);
    } else {
      assert path[1..] == [];
    }
  }
}
