/**
 * The first-version store: one JSON document, read from its file and written
 * back whole by every call, laid out as
 * `group → category → sub-category → {key: {source: "True"/"False"}}`.
 * Each call is a function from the document it reads to the document it
 * writes, or to the exception Python would raise part-way.  Subscripting,
 * assigning, deleting, `pop` and `update` follow Python's rules for the
 * value they meet: only an object (a dict) supports string keys.
 */
module LegacyStore {
  import opened Wrappers
  import opened Dicts
  import opened Strings

  /** A JSON value as `json.load` returns it; numbers are integers here. */
  datatype Json =
    | Null
    | Bool(b: bool)
    | Num(n: int)
    | Str(s: string)
    | Array(elems: seq<Json>)
    | Object(fields: Dict<string, Json>)

  /** Python's name for the type of a value, as exception messages give it. */
  function TypeName(v: Json): string {
    match v
    case Null => "NoneType"
    case Bool(_) => "bool"
    case Num(_) => "int"
    case Str(_) => "str"
    case Array(_) => "list"
    case Object(_) => "dict"
  }

  // ---------------------------------------------------------------------------
  // Python's operations on a value with a string key

  /** `v[k]`: an object looks the key up; a string key into anything else is a TypeError. */
  function Subscript(v: Json, k: string): (r: Result<Json>)
    ensures r.Ok? <==> v.Object? && HasKey(v.fields, k)
    ensures r.Ok? ==> Get(v.fields, k) == Some(r.value)
    ensures v.Object? && !HasKey(v.fields, k) ==> r == Err(KeyError(k))
    ensures !v.Object? ==> r == Err(TypeError(TypeName(v)))
  {
    match v
    case Object(fs) => Lookup(fs, k, k)
    case _ => Err(TypeError(TypeName(v)))
  }

  /** `v[k] = x`: only an object supports item assignment with a string key. */
  function Assign(v: Json, k: string, x: Json): (r: Result<Json>)
    ensures r.Ok? <==> v.Object?
    ensures r.Ok? ==> r.value == Object(Set(v.fields, k, x))
    ensures r.Err? ==> r.error == TypeError(TypeName(v))
  {
    match v
    case Object(fs) => Ok(Object(Set(fs, k, x)))
    case _ => Err(TypeError(TypeName(v)))
  }

  /** The object's pairs without the key `k`, in their order. */
  function Without(fs: Dict<string, Json>, k: string): (r: Dict<string, Json>)
    ensures !HasKey(r, k)
    ensures forall k' :: k' != k ==> Get(r, k') == Get(fs, k')
    ensures Valid(fs) ==> Valid(r)
  {
    var r := KeepIf(fs, q => q != k);
    assert Get(r, k) == None;
    assert Valid(fs) ==> Valid(r) by {
      if Valid(fs) {
        KeepIfValid(fs, q => q != k);
      }
    }
    r
  }

  /** `del v[k]`: KeyError for an absent key, TypeError for a value that is not an object. */
  function DeleteKey(v: Json, k: string): (r: Result<Json>)
    ensures r.Ok? <==> v.Object? && HasKey(v.fields, k)
    ensures r.Ok? ==> r.value == Object(Without(v.fields, k))
    ensures v.Object? && !HasKey(v.fields, k) ==> r == Err(KeyError(k))
    ensures !v.Object? ==> r == Err(TypeError(TypeName(v)))
  {
    match v
    case Object(fs) => if HasKey(fs, k) then Ok(Object(Without(fs, k))) else Err(KeyError(k))
    case _ => Err(TypeError(TypeName(v)))
  }

  /**
   * `v.pop(k)`: the object without the key, and the value it held.  A list's
   * `pop` wants an integer (TypeError); other values have no `pop`.
   */
  function PopKey(v: Json, k: string): (r: Result<(Json, Json)>)
    ensures r.Ok? <==> v.Object? && HasKey(v.fields, k)
    ensures r.Ok? ==> r.value.0 == Object(Without(v.fields, k)) && Get(v.fields, k) == Some(r.value.1)
    ensures v.Object? && !HasKey(v.fields, k) ==> r == Err(KeyError(k))
    ensures v.Array? ==> r == Err(TypeError("list"))
    ensures !v.Object? && !v.Array? ==> r == Err(AttributeError("pop"))
  {
    match v
    case Object(fs) =>
      (match Get(fs, k)
       case Some(x) => Ok((Object(Without(fs, k)), x))
       case None => Err(KeyError(k)))
    case Array(_) => Err(TypeError("list"))
    case _ => Err(AttributeError("pop"))
  }

  /** `v.update(m)`: only an object has `update`. */
  function UpdateWith(v: Json, m: Dict<string, Json>): (r: Result<Json>)
    requires Valid(m)
    ensures r.Ok? <==> v.Object?
    ensures r.Ok? ==> r.value.Object?
    ensures r.Ok? ==> forall k :: Get(r.value.fields, k) == if HasKey(m, k) then Get(m, k) else Get(v.fields, k)
    ensures r.Err? ==> r.error == AttributeError("update")
  {
    match v
    case Object(fs) => Ok(Object(UpdateFrom(fs, m)))
    case _ => Err(AttributeError("update"))
  }

  // ---------------------------------------------------------------------------
  // Paths into the document

  /** `v[p0][p1]…`: the value at the end of a path of keys. */
  function At(v: Json, path: seq<string>): (r: Result<Json>)
    decreases |path|
  {
    if |path| == 0 then Ok(v)
    else
      var child :- Subscript(v, path[0]);
      At(child, path[1..])
  }

  /**
   * Apply `f` to the value at `path` and leave the result in its place: the
   * model of mutating a nested dict that the document holds by reference.
   */
  function Modify(v: Json, path: seq<string>, f: Json -> Result<Json>): (r: Result<Json>)
    ensures r.Ok? <==> At(v, path).Ok? && f(At(v, path).value).Ok?
    ensures r.Ok? ==> At(r.value, path) == f(At(v, path).value)
    ensures r.Err? && At(v, path).Err? ==> r.error == At(v, path).error
    ensures r.Err? && At(v, path).Ok? ==> r.error == f(At(v, path).value).error
    ensures |path| > 0 && r.Ok? ==> r.value.Object? && v.Object? && Keys(r.value.fields) == Keys(v.fields)
    decreases |path|
  {
    if |path| == 0 then f(v)
    else
      var child :- Subscript(v, path[0]);
      var child' :- Modify(child, path[1..], f);
      Ok(Object(Set(v.fields, path[0], child')))
  }

  /** `q` and `path` part at some key: neither leads into the other. */
  predicate Diverges(q: seq<string>, path: seq<string>) {
    exists i :: 0 <= i < |q| && i < |path| && q[i] != path[i]
  }

  /** Modifying the value at `path` leaves every value on a diverging path as it was. */
  lemma {:induction false} ModifyElsewhere(v: Json, path: seq<string>, f: Json -> Result<Json>, q: seq<string>)
    requires Modify(v, path, f).Ok? && Diverges(q, path)
    ensures At(Modify(v, path, f).value, q) == At(v, q)
    decreases |path|
  {
    var w := Modify(v, path, f).value;
    var child := Subscript(v, path[0]).value;
    var child' := Modify(child, path[1..], f).value;
    assert w == Object(Set(v.fields, path[0], child'));
    if q[0] != path[0] {
      assert Subscript(w, q[0]) == Subscript(v, q[0]);
    } else {
      var i :| 0 <= i < |q| && i < |path| && q[i] != path[i];
      assert q[1..][i - 1] != path[1..][i - 1];
      ModifyElsewhere(child, path[1..], f, q[1..]);
      assert Subscript(w, q[0]) == Ok(child');
    }
  }

  /** Looking up one more key after a path. */
  lemma {:induction false} AtSnoc(v: Json, path: seq<string>, k: string)
    ensures At(v, path + [k]) == (var p :- At(v, path); Subscript(p, k))
    decreases |path|
  {
    if |path| > 0 {
      assert (path + [k])[1..] == path[1..] + [k];
      var c := Subscript(v, path[0]);
      if c.Ok? {
        AtSnoc(c.value, path[1..], k);
      }
    } else {
      assert [k][1..] == [];
    }
  }

  // ---------------------------------------------------------------------------
  // The calls

  /** What `ingest_to_json` is given: a mapping of groups, or the name of a new entry. */
  datatype Argument = Mapping(entries: Dict<string, Json>) | Name(name: string)

  /** `{dictionary: {}}` merged into an object: a dict cannot be a key. */
  function AddEmpty(o: Json, arg: Argument): (r: Result<Json>)
    ensures !o.Object? ==> r == Err(AttributeError("update"))
    ensures o.Object? && arg.Mapping? ==> r == Err(TypeError("unhashable type: 'dict'"))
    ensures o.Object? && arg.Name? ==> r == Ok(Object(Set(o.fields, arg.name, Object([]))))
  {
    if !o.Object? then Err(AttributeError("update"))
    else match arg
      case Mapping(_) => Err(TypeError("unhashable type: 'dict'"))
      case Name(n) => Ok(Object(Set(o.fields, n, Object([]))))
  }

  /**
   * `ingest_to_json`: depth 1 adds an empty entry under the group, depth 2
   * under the group's category; no depth (None or 0) merges the mapping into
   * the top level.  A name given without depth is iterated as pairs, so any
   * non-empty name raises ValueError.  Other depths write the document back
   * unchanged.
   */
  function Ingest(data: Json, arg: Argument, depth: Option<int>, group: string, item: string): (r: Result<Json>)
    requires arg.Mapping? ==> Valid(arg.entries)
    ensures depth.Some? && depth.value != 0 && depth.value != 1 && depth.value != 2 ==> r == Ok(data)
    ensures (depth == Some(1) || depth == Some(2)) && arg.Mapping? ==> r.Err?
    ensures (depth.None? || depth == Some(0)) && arg.Name? && arg.name != "" ==> r.Err?
    ensures (depth.None? || depth == Some(0)) && !data.Object? ==> r == Err(AttributeError("update"))
  {
    if depth == Some(1) then Modify(data, [group], o => AddEmpty(o, arg))
    else if depth == Some(2) then Modify(data, [group, item], o => AddEmpty(o, arg))
    else if depth.None? || depth == Some(0) then
      match arg
      case Mapping(m) => UpdateWith(data, m)
      case Name(n) =>
        if !data.Object? then Err(AttributeError("update"))
        else if n == "" then Ok(data)
        else Err(ValueError("dictionary update sequence element #0 has length 1; 2 is required"))
    else Ok(data)
  }

  /** Without depth, the mapping's groups replace same-named groups and the rest stay. */
  lemma IngestMerges(data: Json, m: Dict<string, Json>)
    requires data.Object? && Valid(m)
    ensures Ingest(data, Mapping(m), None, "", "").Ok?
    ensures forall g :: At(Ingest(data, Mapping(m), None, "", "").value, [g]) ==
                        if HasKey(m, g) then Ok(Get(m, g).value) else At(data, [g])
  {
    var w := Ingest(data, Mapping(m), None, "", "").value;
    forall g ensures At(w, [g]) == if HasKey(m, g) then Ok(Get(m, g).value) else At(data, [g]) {
      assert [g][1..] == [];
    }
  }

  /**
   * Depth 1 and 2 put an empty object under the name, replacing what was
   * there, and leave every value off that path as it was.
   */
  lemma IngestAddsEmpty(data: Json, name: string, depth: int, group: string, item: string, q: seq<string>)
    requires depth == 1 || depth == 2
    requires Ingest(data, Name(name), Some(depth), group, item).Ok?
    ensures var path := if depth == 1 then [group] else [group, item];
      var w := Ingest(data, Name(name), Some(depth), group, item).value;
      At(w, path + [name]) == Ok(Object([])) &&
      (Diverges(q, path) ==> At(w, q) == At(data, q)) &&
      (forall n :: n != name ==> At(w, path + [n]) == At(data, path + [n]))
  {
    var path := if depth == 1 then [group] else [group, item];
    var f := (o: Json) => AddEmpty(o, Name(name));
    var w := Modify(data, path, f).value;
    assert Ingest(data, Name(name), Some(depth), group, item) == Modify(data, path, f);
    AtSnoc(w, path, name);
    forall n | n != name ensures At(w, path + [n]) == At(data, path + [n]) {
      AtSnoc(w, path, n);
      AtSnoc(data, path, n);
    }
    if Diverges(q, path) {
      ModifyElsewhere(data, path, f, q);
    }
  }

  /**
   * `remove_category_from_json`: no depth pops the group, depth 1 deletes the
   * category under it, depth 2 the sub-category under that; the message
   * names what went.  Other depths change nothing and return None.
   */
  function RemoveCategory(data: Json, group: string, depth: Option<int>, category: string, sub: string)
    : (r: Result<(Json, Option<string>)>)
    ensures depth.Some? && depth.value != 1 && depth.value != 2 ==> r == Ok((data, None))
    ensures depth.None? ==> (r.Ok? <==> data.Object? && HasKey(data.fields, group))
    ensures depth.None? && r.Ok? ==> r.value == (Object(Without(data.fields, group)), Some("Removed " + group + " from json"))
    ensures depth == Some(1) && r.Ok? ==> r.value.1 == Some("Removed " + category + " from json")
    ensures depth == Some(2) && r.Ok? ==> r.value.1 == Some("Removed " + sub + " from json")
  {
    if depth.None? then
      var (w, _) :- PopKey(data, group);
      Ok((w, Some("Removed " + group + " from json")))
    else if depth == Some(1) then
      var w :- Modify(data, [group], o => DeleteKey(o, category));
      Ok((w, Some("Removed " + category + " from json")))
    else if depth == Some(2) then
      var w :- Modify(data, [group, category], o => DeleteKey(o, sub));
      Ok((w, Some("Removed " + sub + " from json")))
    else Ok((data, None))
  }

  /**
   * Removing at depth 1 or 2 succeeds exactly when the key is there; it
   * takes exactly that key out of its parent, and nothing else changes.
   */
  lemma RemoveCategoryExactly(data: Json, group: string, depth: int, category: string, sub: string, q: seq<string>)
    requires depth == 1 || depth == 2
    ensures var parent := if depth == 1 then [group] else [group, category];
      var name := if depth == 1 then category else sub;
      var r := RemoveCategory(data, group, Some(depth), category, sub);
      (r.Ok? <==> At(data, parent + [name]).Ok?) &&
      (r.Ok? ==>
        r.value.1 == Some("Removed " + name + " from json") &&
        At(r.value.0, parent + [name]).Err? &&
        (forall n :: n != name ==> At(r.value.0, parent + [n]) == At(data, parent + [n])) &&
        (Diverges(q, parent) ==> At(r.value.0, q) == At(data, q)))
  {
    var parent := if depth == 1 then [group] else [group, category];
    var name := if depth == 1 then category else sub;
    var f := (o: Json) => DeleteKey(o, name);
    AtSnoc(data, parent, name);
    var m := Modify(data, parent, f);
    assert RemoveCategory(data, group, Some(depth), category, sub).Ok? <==> m.Ok?;
    if m.Ok? {
      var w := m.value;
      assert RemoveCategory(data, group, Some(depth), category, sub).value.0 == w;
      AtSnoc(w, parent, name);
      forall n | n != name ensures At(w, parent + [n]) == At(data, parent + [n]) {
        AtSnoc(w, parent, n);
        AtSnoc(data, parent, n);
      }
      if Diverges(q, parent) {
        ModifyElsewhere(data, parent, f, q);
      }
    }
  }

  /** Without depth the whole group goes; an absent group raises KeyError. */
  lemma RemoveGroupExactly(data: Json, group: string)
    requires data.Object?
    ensures var r := RemoveCategory(data, group, None, "", "");
      (r.Err? <==> !HasKey(data.fields, group)) &&
      (r.Err? ==> r.error == KeyError(group)) &&
      (r.Ok? ==>
        r.value.1 == Some("Removed " + group + " from json") &&
        At(r.value.0, [group]).Err? &&
        forall g :: g != group ==> At(r.value.0, [g]) == At(data, [g]))
  {
    var r := RemoveCategory(data, group, None, "", "");
    if r.Ok? {
      forall g ensures At(r.value.0, [g]) == Subscript(r.value.0, g) && At(data, [g]) == Subscript(data, g) {
        assert [g][1..] == [];
      }
    }
  }

  /** `d[new] = d.pop(old)` on the object `o`. */
  function Rekey(o: Json, oldKey: string, newKey: string): (r: Result<Json>)
    ensures r.Ok? <==> o.Object? && HasKey(o.fields, oldKey)
    ensures r.Ok? ==> r.value.Object?
    ensures r.Ok? ==> Get(r.value.fields, newKey) == Get(o.fields, oldKey)
    ensures r.Ok? && newKey != oldKey ==> !HasKey(r.value.fields, oldKey)
    ensures r.Ok? ==> forall k :: k != oldKey && k != newKey ==> Get(r.value.fields, k) == Get(o.fields, k)
  {
    var (rest, x) :- PopKey(o, oldKey);
    Assign(rest, newKey, x)
  }

  /**
   * `update_category_to_json`: depth 1 renames a category of the group,
   * depth 2 a sub-category of the group's `sub`; other depths change nothing.
   */
  function UpdateCategory(data: Json, newKey: string, oldKey: string, depth: Option<int>, group: string, sub: string)
    : (r: Result<Json>)
    ensures depth != Some(1) && depth != Some(2) ==> r == Ok(data)
  {
    if depth == Some(1) then Modify(data, [group], o => Rekey(o, oldKey, newKey))
    else if depth == Some(2) then Modify(data, [group, sub], o => Rekey(o, oldKey, newKey))
    else Ok(data)
  }

  /**
   * A rename moves the old key's value under the new key and drops the old
   * key; siblings and everything off the path keep their values.
   */
  lemma UpdateCategoryMoves(data: Json, newKey: string, oldKey: string, depth: int, group: string, sub: string, q: seq<string>)
    requires depth == 1 || depth == 2
    ensures var parent := if depth == 1 then [group] else [group, sub];
      var r := UpdateCategory(data, newKey, oldKey, Some(depth), group, sub);
      (r.Ok? <==> At(data, parent + [oldKey]).Ok?) &&
      (r.Ok? ==>
        At(r.value, parent + [newKey]) == At(data, parent + [oldKey]) &&
        (newKey != oldKey ==> At(r.value, parent + [oldKey]).Err?) &&
        (forall n :: n != oldKey && n != newKey ==> At(r.value, parent + [n]) == At(data, parent + [n])) &&
        (Diverges(q, parent) ==> At(r.value, q) == At(data, q)))
  {
    var parent := if depth == 1 then [group] else [group, sub];
    var f := (o: Json) => Rekey(o, oldKey, newKey);
    var m := Modify(data, parent, f);
    assert UpdateCategory(data, newKey, oldKey, Some(depth), group, sub) == m;
    AtSnoc(data, parent, oldKey);
    if m.Ok? {
      var w := m.value;
      AtSnoc(w, parent, newKey);
      AtSnoc(w, parent, oldKey);
      forall n | n != oldKey && n != newKey ensures At(w, parent + [n]) == At(data, parent + [n]) {
        AtSnoc(w, parent, n);
        AtSnoc(data, parent, n);
      }
      if Diverges(q, parent) {
        ModifyElsewhere(data, parent, f, q);
      }
    }
  }

  /** `str(fav)` for the favourite flag. */
  function FavText(fav: bool): string {
    if fav then "True" else "False"
  }

  /** The entry `update_items_into_json` means to store: `{item: str(fav)}`. */
  function Entry(item: string, fav: bool): Json {
    Object([(item, Str(FavText(fav)))])
  }

  /**
   * `update_items_into_json` as intended: the key under the group's
   * category and sub-category holds `{item: str(fav)}`.
   */
  function UpdateItems(data: Json, item: string, current: string, top: string, group: string, key: string, fav: bool)
    : (r: Result<Json>)
    ensures r.Ok? <==> At(data, [group, top, current]).Ok? && At(data, [group, top, current]).value.Object?
    ensures At(data, [group, top, current]).Err? ==> r == Err(At(data, [group, top, current]).error)
  {
    Modify(data, [group, top, current], o => Assign(o, key, Entry(item, fav)))
  }

  /** The stored entry is `{item: str(fav)}`, and nothing off the sub-category changes. */
  lemma UpdateItemsStores(data: Json, item: string, current: string, top: string, group: string, key: string, fav: bool, q: seq<string>)
    ensures var parent := [group, top, current];
      var r := UpdateItems(data, item, current, top, group, key, fav);
      (r.Ok? <==> At(data, parent).Ok? && At(data, parent).value.Object?) &&
      (r.Ok? ==>
        At(r.value, parent + [key]) == Ok(Entry(item, fav)) &&
        At(r.value, parent + [key, item]) == Ok(Str(FavText(fav))) &&
        (forall n :: n != key ==> At(r.value, parent + [n]) == At(data, parent + [n])) &&
        (Diverges(q, parent) ==> At(r.value, q) == At(data, q)))
  {
    var parent := [group, top, current];
    var f := (o: Json) => Assign(o, key, Entry(item, fav));
    var m := Modify(data, parent, f);
    if m.Ok? {
      var w := m.value;
      AtSnoc(w, parent, key);
      assert parent + [key, item] == (parent + [key]) + [item];
      AtSnoc(w, parent + [key], item);
      forall n | n != key ensures At(w, parent + [n]) == At(data, parent + [n]) {
        AtSnoc(w, parent, n);
        AtSnoc(data, parent, n);
      }
      if Diverges(q, parent) {
        ModifyElsewhere(data, parent, f, q);
      }
    }
  }

  /**
   * What `json.loads` makes of one escape `\c` inside a JSON string; an
   * unknown escape raises (a JSONDecodeError is a ValueError).
   */
  function Unescape(c: char): (r: Result<char>)
    ensures r.Ok? <==> c in "\"\\/bfnrt"
  {
    match c
    case '"' => Ok('"')
    case '\\' => Ok('\\')
    case '/' => Ok('/')
    case 'b' => Ok(8 as char)
    case 'f' => Ok(12 as char)
    case 'n' => Ok('\n')
    case 'r' => Ok('\r')
    case 't' => Ok('\t')
    case _ => Err(ValueError("Invalid \\escape"))
  }

  /** `s` has no `\u` escape, which the model does not decode. */
  predicate NoUnicodeEscape(s: string) {
    forall i :: 0 <= i < |s| - 1 ==> !(s[i] == '\\' && s[i + 1] == 'u')
  }

  lemma NoUnicodeEscapeDrop(s: string, k: nat)
    requires NoUnicodeEscape(s) && k <= |s|
    ensures NoUnicodeEscape(s[k..])
  {
    forall i | 0 <= i < |s[k..]| - 1 ensures !(s[k..][i] == '\\' && s[k..][i + 1] == 'u') {
      assert s[k..][i] == s[i + k] && s[k..][i + 1] == s[i + k + 1];
    }
  }

  /**
   * `json.loads` of the text between a pair of quotes: escapes are decoded,
   * an unknown escape or a raw control character raises.
   */
  function DecodeString(s: string): (r: Result<string>)
    requires '"' !in s && NoUnicodeEscape(s)
    decreases |s|
  {
    if |s| == 0 then Ok([])
    else if s[0] == '\\' then
      if |s| == 1 then Err(ValueError("Unterminated string"))
      else
        var c :- Unescape(s[1]);
        NoUnicodeEscapeDrop(s, 2);
        var rest :- DecodeString(s[2..]);
        Ok([c] + rest)
    else if s[0] < ' ' then Err(ValueError("Invalid control character"))
    else
      NoUnicodeEscapeDrop(s, 1);
      var rest :- DecodeString(s[1..]);
      Ok([s[0]] + rest)
  }

  /** Text with no backslash, quote or control character decodes to itself. */
  lemma {:induction false} DecodePlain(s: string)
    requires '"' !in s && '\\' !in s && forall i :: 0 <= i < |s| ==> s[i] >= ' '
    ensures NoUnicodeEscape(s) && DecodeString(s) == Ok(s)
    decreases |s|
  {
    if |s| > 0 {
      DecodePlain(s[1..]);
      assert s == [s[0]] + s[1..];
    }
  }

  /**
   * `update_items_into_json` as written: the entry is made by formatting
   * `{"item": "fav"}` and parsing it back, so the item is read as the body
   * of a JSON string.  The parse happens before the document is touched.
   */
  function UpdateItemsAsWritten(data: Json, item: string, current: string, top: string, group: string, key: string, fav: bool)
    : (r: Result<Json>)
    requires '"' !in item && NoUnicodeEscape(item)
    ensures DecodeString(item).Err? ==> r == Err(DecodeString(item).error)
    ensures DecodeString(item).Ok? ==> r == UpdateItems(data, DecodeString(item).value, current, top, group, key, fav)
  {
    var name :- DecodeString(item);
    Modify(data, [group, top, current], o => Assign(o, key, Entry(name, fav)))
  }

  /** For item names without backslashes or control characters, the two agree. */
  lemma AsWrittenAgreesOnPlainItems(data: Json, item: string, current: string, top: string, group: string, key: string, fav: bool)
    requires '"' !in item && '\\' !in item && forall i :: 0 <= i < |item| ==> item[i] >= ' '
    ensures NoUnicodeEscape(item)
    ensures UpdateItemsAsWritten(data, item, current, top, group, key, fav) == UpdateItems(data, item, current, top, group, key, fav)
  {
    DecodePlain(item);
  }

  /** Text with no backslash, quote or control character. */
  predicate Plain(s: string) {
    '"' !in s && '\\' !in s && forall i :: 0 <= i < |s| ==> s[i] >= ' '
  }

  lemma NoUnicodeEscapeCons(x: char, s: string)
    requires x != '\\' || (|s| > 0 && s[0] != 'u')
    requires NoUnicodeEscape(s)
    ensures NoUnicodeEscape([x] + s)
  {
    var r := [x] + s;
    forall i | 0 <= i < |r| - 1 ensures !(r[i] == '\\' && r[i + 1] == 'u') {
      if i > 0 {
        assert r[i] == s[i - 1] && r[i + 1] == s[i];
      }
    }
  }

  /** What one escape `\c` decodes to, or the error it raises. */
  function EscapeResult(c: char, p: string, t: string): Result<string> {
    match Unescape(c)
    case Ok(e) => Ok(p + [e] + t)
    case Err(x) => Err(x)
  }

  lemma DecodeEscapeFirst(c: char, t: string)
    requires Plain(t) && c != '"' && c != '\\' && c != 'u'
    ensures var s := ['\\', c] + t;
      '"' !in s && NoUnicodeEscape(s) && DecodeString(s) == EscapeResult(c, [], t)
  {
    var s := ['\\', c] + t;
    DecodePlain(t);
    assert s[2..] == t;
    NoUnicodeEscapeCons(c, t);
    NoUnicodeEscapeCons('\\', [c] + t);
    assert ['\\'] + ([c] + t) == s;
    assert s[0] == '\\' && s[1] == c;
    if Unescape(c).Ok? {
      assert [] + [Unescape(c).value] + t == [Unescape(c).value] + t;
    }
  }

  /**
   * One escape between plain texts: a known one is decoded to its
   * character, an unknown one makes the whole parse raise.
   */
  lemma {:induction false} DecodeOneEscape(p: string, c: char, t: string)
    requires Plain(p) && Plain(t) && c != '"' && c != '\\' && c != 'u'
    ensures var s := p + ['\\', c] + t;
      '"' !in s && NoUnicodeEscape(s) && DecodeString(s) == EscapeResult(c, p, t)
    decreases |p|
  {
    var s := p + ['\\', c] + t;
    if |p| == 0 {
      assert s == ['\\', c] + t;
      DecodeEscapeFirst(c, t);
    } else {
      DecodeOneEscape(p[1..], c, t);
      assert s == [p[0]] + (p[1..] + ['\\', c] + t);
      NoUnicodeEscapeCons(p[0], p[1..] + ['\\', c] + t);
      assert s[1..] == p[1..] + ['\\', c] + t;
      if Unescape(c).Ok? {
        assert p + [Unescape(c).value] + t == [p[0]] + (p[1..] + [Unescape(c).value] + t);
      }
    }
  }

  /**
   * A path with `\n` between plain parts, such as `C:\new.mov`: the
   * as-written call stores the entry under a name holding a newline instead.
   */
  lemma AsWrittenDecodesBackslashN(dir: string, rest: string,
                                   data: Json, current: string, top: string, group: string, key: string, fav: bool)
    requires Plain(dir) && Plain(rest)
    ensures var item := dir + ['\\', 'n'] + rest;
      '"' !in item && NoUnicodeEscape(item) &&
      UpdateItemsAsWritten(data, item, current, top, group, key, fav) ==
        UpdateItems(data, dir + ['\n'] + rest, current, top, group, key, fav) &&
      dir + ['\n'] + rest != item
  {
    DecodeOneEscape(dir, 'n', rest);
    var item := dir + ['\\', 'n'] + rest;
    AsWrittenStoresDecoded(data, item, dir + ['\n'] + rest, current, top, group, key, fav);
    assert |dir + ['\n'] + rest| < |item|;
  }

  /** The as-written call stores the entry under whatever name the item decodes to. */
  lemma AsWrittenStoresDecoded(data: Json, item: string, name: string, current: string, top: string, group: string, key: string, fav: bool)
    requires '"' !in item && NoUnicodeEscape(item) && DecodeString(item) == Ok(name)
    ensures UpdateItemsAsWritten(data, item, current, top, group, key, fav) == UpdateItems(data, name, current, top, group, key, fav)
  {
  }

  /**
   * A path with an unknown escape between plain parts, such as `C:\a.mov`:
   * the as-written call raises and the document is not written.
   */
  lemma AsWrittenRejectsUnknownEscape(dir: string, c: char, rest: string,
                                      data: Json, current: string, top: string, group: string, key: string, fav: bool)
    requires Plain(dir) && Plain(rest) && c !in "\"\\/bfnrtu"
    ensures var item := dir + ['\\', c] + rest;
      '"' !in item && NoUnicodeEscape(item) &&
      UpdateItemsAsWritten(data, item, current, top, group, key, fav) == Err(ValueError("Invalid \\escape"))
  {
    DecodeOneEscape(dir, c, rest);
  }

  /** `remove_item_from_json`: deletes exactly the key under the group's category and sub-category. */
  function RemoveItem(data: Json, current: string, top: string, group: string, key: string): (r: Result<Json>)
    ensures At(data, [group, top, current]).Err? ==> r == Err(At(data, [group, top, current]).error)
    ensures (At(data, [group, top, current]).Ok? && At(data, [group, top, current]).value.Object? &&
             !HasKey(At(data, [group, top, current]).value.fields, key)) ==> r == Err(KeyError(key))
    ensures r.Ok? ==> r.value.Object? && Keys(r.value.fields) == Keys(data.fields)
  {
    Modify(data, [group, top, current], o => DeleteKey(o, key))
  }

  lemma RemoveItemExactly(data: Json, current: string, top: string, group: string, key: string, q: seq<string>)
    ensures var parent := [group, top, current];
      var r := RemoveItem(data, current, top, group, key);
      (r.Ok? <==> At(data, parent + [key]).Ok?) &&
      (r.Ok? ==>
        At(r.value, parent + [key]).Err? &&
        (forall n :: n != key ==> At(r.value, parent + [n]) == At(data, parent + [n])) &&
        (Diverges(q, parent) ==> At(r.value, q) == At(data, q)))
  {
    var parent := [group, top, current];
    var f := (o: Json) => DeleteKey(o, key);
    var m := Modify(data, parent, f);
    AtSnoc(data, parent, key);
    if m.Ok? {
      var w := m.value;
      AtSnoc(w, parent, key);
      forall n | n != key ensures At(w, parent + [n]) == At(data, parent + [n]) {
        AtSnoc(w, parent, n);
        AtSnoc(data, parent, n);
      }
      if Diverges(q, parent) {
        ModifyElsewhere(data, parent, f, q);
      }
    }
  }
}
