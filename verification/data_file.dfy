/**
 * The first-version data file handler: a JSON file name, what the file
 * holds, and the memo that `data()` keeps of its first successful read
 * (`functools.lru_cache` on the method, never cleared).  Writing replaces the
 * whole file with a document of one group.
 */
module DataFile {
  import opened Wrappers
  import opened Dicts
  import opened LegacyStore

  /** The handler: its file name, the file's contents, and the memoised read. */
  datatype Store = Store(file: string, contents: Json, cache: Option<Json>)

  /** The document `update_data_json` writes for a group, an optional category and its items. */
  function GroupDocument(group: string, category: string, items: seq<Json>): (r: Json)
    ensures r.Object? && Keys(r.fields) == [group]
    ensures category == "" ==> r.fields[0].1 == Object([])
    ensures category != "" ==> r.fields[0].1 == Object([(category, Array(items))])
  {
    if category != "" && |items| == 0 then Object([(group, Object([(category, Array([]))]))])
    else if category != "" then Object([(group, Object([(category, Array(items))]))])
    else Object([(group, Object([]))])
  }

  /**
   * `update_data_json`: without a file name it raises before writing;
   * otherwise the file holds just the new group document.  The memo is not
   * touched.
   */
  function UpdateDataJson(st: Store, group: string, category: string, items: seq<Json>): (r: Result<Store>)
    ensures r.Err? <==> st.file == ""
    ensures r.Err? ==> r.error == Raised("No Valid Json file found!, cannot serialize data!")
    ensures r.Ok? ==> r.value == st.(contents := GroupDocument(group, category, items))
  {
    if st.file == "" then Err(Raised("No Valid Json file found!, cannot serialize data!"))
    else Ok(st.(contents := GroupDocument(group, category, items)))
  }

  /** After a write the file holds exactly one group, the one written. */
  lemma WriteLeavesOneGroup(st: Store, group: string, category: string, items: seq<Json>, g: string)
    requires UpdateDataJson(st, group, category, items).Ok?
    ensures var doc := UpdateDataJson(st, group, category, items).value.contents;
      At(doc, [g]).Ok? <==> g == group
  {
    var doc := UpdateDataJson(st, group, category, items).value.contents;
    assert [g][1..] == [];
    HasKeyIff(doc.fields, g);
  }

  /**
   * `data()` as written: the memo once there is one, otherwise the file
   * (and the read is memoised); no file name raises and memoises nothing.
   */
  function Data(st: Store): (r: Result<(Json, Store)>)
    ensures st.cache.Some? ==> r == Ok((st.cache.value, st))
    ensures st.cache.None? ==> (r.Err? <==> st.file == "")
    ensures st.cache.None? && r.Ok? ==> r.value == (st.contents, st.(cache := Some(st.contents)))
  {
    match st.cache
    case Some(doc) => Ok((doc, st))
    case None =>
      if st.file == "" then Err(Raised("No Valid Json file found!, cannot retrieve data"))
      else Ok((st.contents, st.(cache := Some(st.contents))))
  }

  /** The read the handler's writes call for: always the file as it now is. */
  function DataFresh(st: Store): (r: Result<Json>)
    ensures r.Err? <==> st.file == ""
    ensures r.Ok? ==> r.value == st.contents
  {
    if st.file == "" then Err(Raised("No Valid Json file found!, cannot retrieve data")) else Ok(st.contents)
  }

  /** Reading after writing gives what was written. */
  lemma FreshReadSeesWrite(st: Store, group: string, category: string, items: seq<Json>)
    requires st.file != ""
    ensures DataFresh(UpdateDataJson(st, group, category, items).value) == Ok(GroupDocument(group, category, items))
  {
  }

  /**
   * Once `data()` has been called, a later write is never seen: the memo
   * still answers with the document read before the write.
   */
  lemma StaleReadAfterWrite(st: Store, group: string, category: string, items: seq<Json>)
    requires st.file != "" && st.cache.None?
    requires st.contents != GroupDocument(group, category, items)
    ensures var (before, st1) := Data(st).value;
      var st2 := UpdateDataJson(st1, group, category, items).value;
      Data(st2).value.0 == before && before != GroupDocument(group, category, items)
  {
  }

  /**
   * `data_by_key`: the group's value (None when absent) with no category
   * key, otherwise that group's entry for the key.  The lookup is `.get` on
   * the value found, so a missing group or one that is not an object raises
   * AttributeError when a category key is given.
   */
  function DataByKey(st: Store, group: string, category: string): (r: Result<(Option<Json>, Store)>)
    ensures Data(st).Err? ==> r.Err?
    ensures Data(st).Ok? && Data(st).value.0.Object? && category == "" ==>
      r == Ok((Get(Data(st).value.0.fields, group), Data(st).value.1))
    ensures Data(st).Ok? && Data(st).value.0.Object? && category != "" ==>
      (r.Ok? <==> match Get(Data(st).value.0.fields, group) case Some(g) => g.Object? case None => false)
    ensures r.Ok? && category != "" ==>
      Data(st).Ok? && Data(st).value.0.Object? && Get(Data(st).value.0.fields, group).Some? &&
      Get(Data(st).value.0.fields, group).value.Object? &&
      r.value.0 == Get(Get(Data(st).value.0.fields, group).value.fields, category)
    ensures Data(st).Ok? && !Data(st).value.0.Object? ==> r == Err(AttributeError("get"))
  {
    var (doc, st1) :- Data(st);
    if !doc.Object? then Err(AttributeError("get"))
    else
      var g := Get(doc.fields, group);
      if category == "" then Ok((g, st1))
      else if g.Some? && g.value.Object? then Ok((Get(g.value.fields, category), st1))
      else Err(AttributeError("get"))
  }

  /** Right after a write, the written category's items come back by key, when nothing was memoised before. */
  lemma DataByKeyAfterWrite(st: Store, group: string, category: string, items: seq<Json>)
    requires st.file != "" && st.cache.None? && category != ""
    ensures var st2 := UpdateDataJson(st, group, category, items).value;
      DataByKey(st2, group, category).Ok? &&
      DataByKey(st2, group, category).value.0 == Some(Array(items))
  {
    var doc := GroupDocument(group, category, items);
    assert Get(doc.fields, group) == Some(doc.fields[0].1);
    var inner := doc.fields[0].1;
    assert Get(inner.fields, category) == Some(Array(items));
  }
}
