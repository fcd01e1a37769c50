/**
 * The `Data` facade the UI talks to.  It forwards edits to the document store
 * and answers group and category listings from its own reference to the
 * store's data dict.  That reference stays shared while the store edits the
 * dict in place; `update_key` ends by re-reading the file, after which the
 * store holds a fresh dict and the facade keeps reading the old one until
 * `refresh()`.  The tag list is a copy taken once at start-up.
 */
module ToolData {
  import opened Wrappers
  import opened Seqs
  import opened Dicts
  import opened Strings
  import opened Paths
  import opened Media
  import opened Document
  import opened CategoryPattern
  import opened Replacement
  import Handler

  /** What the facade's data reference points at: the store's current dict, or a dict the store has let go of. */
  datatype View = Live | Stale(snapshot: DataMap)

  datatype State = State(store: Doc, view: View, tags: seq<string>)

  predicate Inv(s: State) {
    WellFormed(s.store) && (s.view.Stale? ==> WellFormed(Doc(s.view.snapshot, [])))
  }

  /** The dict `groups()` and `categories()` read. */
  function ViewData(s: State): DataMap {
    match s.view
    case Live => s.store.data
    case Stale(d) => d
  }

  /** `Data()`: both references start on the loaded document. */
  function Init(doc: Doc): (s: State)
    requires WellFormed(doc)
    ensures Inv(s) && ViewData(s) == doc.data && s.tags == doc.tags
  {
    State(doc, Live, doc.tags)
  }

  /** Replaces the store after a store edit; the view follows only while it is live. */
  function WithStore(s: State, r: Result<Doc>): Result<State> {
    match r
    case Err(e) => Err(e)
    case Ok(doc) => Ok(s.(store := doc))
  }

  /** `groups()`: every group key of the viewed dict, once each, in insertion order. */
  function Groups(s: State): (r: seq<string>)
    requires Inv(s)
    ensures NoDup(r)
    ensures forall g :: g in r <==> HasKey(ViewData(s), g)
    ensures |ViewData(s)| == 0 ==> r == []
  {
    var d := ViewData(s);
    forall g ensures g in Keys(d) <==> HasKey(d, g) {
      HasKeyIff(d, g);
    }
    Keys(d)
  }

  /** `categories(group)`: nothing for a missing or empty group, else its category keys once each. */
  function Categories(s: State, group: string): (r: seq<string>)
    requires Inv(s)
    ensures NoDup(r)
    ensures forall c :: c in r <==> Get(ViewData(s), group).Some? && HasKey(Get(ViewData(s), group).value, c)
    ensures Get(ViewData(s), group).None? ==> r == []
  {
    var d := ViewData(s);
    match Get(d, group)
    case None => []
    case Some(cats) =>
      assert Valid(cats) by {
        GroupValid(Doc(d, []), group);
      }
      forall c ensures c in Keys(cats) <==> HasKey(cats, c) {
        HasKeyIff(cats, c);
      }
      Keys(cats)
  }

  /** `add_group(group)`: the group is (re)created empty; an empty name raises KeyError. */
  function AddGroup(s: State, group: string): (r: Result<State>)
    requires Inv(s)
    ensures r.Ok? <==> group != ""
    ensures r.Ok? ==> Inv(r.value) && r.value.view == s.view && r.value.tags == s.tags
    ensures r.Ok? ==> Get(r.value.store.data, group) == Some([])
  {
    WithStore(s, Handler.UpdateData(s.store, group, "", None, "data", "", []))
  }

  /** `remove_group(group)`: KeyError when there is no such group. */
  function RemoveGroup(s: State, group: string): (r: Result<State>)
    requires Inv(s)
    ensures r.Ok? <==> HasKey(s.store.data, group)
    ensures r.Ok? ==> Inv(r.value) && r.value.view == s.view && !HasKey(r.value.store.data, group)
  {
    WithStore(s, Handler.RemoveKey(s.store, group, "", "data", ""))
  }

  /**
   * `add_category(group, category)`: the category is created empty, replacing
   * any records it had.  An empty category name resets the whole group.
   */
  function AddCategory(s: State, group: string, category: string): (r: Result<State>)
    requires Inv(s)
    ensures group == "" ==> r.Err?
    ensures group != "" && category == "" ==> r.Ok? && Get(r.value.store.data, group) == Some([])
    ensures group != "" && category != "" ==> (r.Ok? <==> HasKey(s.store.data, group))
    ensures group != "" && category != "" && r.Ok? ==> Items(r.value.store, group, category) == Some([])
    ensures r.Ok? ==> Inv(r.value) && r.value.view == s.view
  {
    WithStore(s, Handler.UpdateData(s.store, group, category, None, "data", "", []))
  }

  /**
   * `rename_category(group, old, new)`: the store renames and re-reads its
   * file, so a live view is left holding the dict as it stood right after the
   * rename.  A new name `re` rejects as a replacement template raises as
   * `update_key` does, and nothing changes.
   */
  function RenameCategory(s: State, group: string, oldName: string, newName: string): (r: Result<State>)
    requires Inv(s) && Literal(oldName)
    ensures r.Ok? <==> HasKey(s.store.data, group) && (|Get(s.store.data, group).value| == 0 || Parse(newName).Ok?)
    ensures r.Err? ==> r.error == if HasKey(s.store.data, group) then Parse(newName).error else KeyError(group)
    ensures r.Ok? ==> Inv(r.value) && r.value.store == Handler.UpdateKey(s.store, group, oldName, newName).value
    ensures r.Ok? ==> r.value.view.Stale? && r.value.tags == s.tags
    ensures r.Ok? && s.view.Live? ==> ViewData(r.value) == r.value.store.data
    ensures r.Ok? && s.view.Stale? ==> ViewData(r.value) == ViewData(s)
  {
    match Handler.UpdateKey(s.store, group, oldName, newName)
    case Err(e) => Err(e)
    case Ok(doc) =>
      var view := if s.view.Live? then Stale(doc.data) else s.view;
      Ok(State(doc, view, s.tags))
  }

  /**
   * After a rename the facade no longer sees the store's edits: a group added
   * next is in the store but not in `groups()`.
   */
  lemma StaleAfterRename(s: State, group: string, oldName: string, newName: string, added: string)
    requires Inv(s) && Literal(oldName)
    requires RenameCategory(s, group, oldName, newName).Ok?
    requires added != "" && !HasKey(RenameCategory(s, group, oldName, newName).value.store.data, added)
    requires s.view.Live?
    ensures var t := AddGroup(RenameCategory(s, group, oldName, newName).value, added).value;
      HasKey(t.store.data, added) && added !in Groups(t)
  {
  }

  /** Renaming with the facade re-pointed at the re-read dict, as the other edits keep it. */
  function RenameCategoryFresh(s: State, group: string, oldName: string, newName: string): (r: Result<State>)
    requires Inv(s) && Literal(oldName)
    ensures r.Ok? <==> HasKey(s.store.data, group) && (|Get(s.store.data, group).value| == 0 || Parse(newName).Ok?)
    ensures r.Err? ==> r.error == if HasKey(s.store.data, group) then Parse(newName).error else KeyError(group)
    ensures r.Ok? ==> Inv(r.value) && r.value.view == Live && r.value.tags == s.tags
    ensures r.Ok? && Parse(newName).Ok? ==>
      forall k :: Items(r.value.store, group, k)
                  == Handler.LastRenamed(Get(s.store.data, group).value, oldName, Parse(newName).value, k)
  {
    WithStore(s.(view := Live), Handler.UpdateKey(s.store, group, oldName, newName))
  }

  /** With the fresh rename, a group added afterwards is listed by `groups()`. */
  lemma FreshAfterRename(s: State, group: string, oldName: string, newName: string, added: string)
    requires Inv(s) && Literal(oldName)
    requires RenameCategoryFresh(s, group, oldName, newName).Ok? && added != ""
    ensures var t := AddGroup(RenameCategoryFresh(s, group, oldName, newName).value, added).value;
      HasKey(t.store.data, added) && added in Groups(t)
  {
  }

  /** `remove_category(group, category)`: the category and its descendants go; a missing group raises. */
  function RemoveCategory(s: State, group: string, category: string): (r: Result<State>)
    requires Inv(s) && (category != "" ==> Literal(category))
    ensures category == "" ==> r == RemoveGroup(s, group)
    ensures category != "" ==> (r.Ok? <==> HasKey(s.store.data, group))
    ensures category != "" && r.Ok? ==>
      forall k :: Items(r.value.store, group, k) == if KeyMatches(category, k) then None else Items(s.store, group, k)
    ensures r.Ok? ==> Inv(r.value) && r.value.view == s.view
  {
    WithStore(s, Handler.RemoveKey(s.store, group, category, "data", ""))
  }

  /**
   * `add_proxy_data(...)`: builds an untagged record, appends it to the
   * category and returns it.  The store's tests run first, so an empty
   * category name resets the group instead.
   */
  function AddProxyData(s: State, source: string, proxy: string, metadata: Metadata,
                        group: string, category: string): (r: Result<(State, Record)>)
    requires Inv(s)
    ensures r.Ok? ==> r.value.1 == Record(source, proxy, metadata, [])
    ensures group != "" && category != "" ==> (r.Ok? <==> Items(s.store, group, category).Some?)
    ensures group != "" && category != "" && r.Ok? ==>
      Items(r.value.0.store, group, category) == Some(Items(s.store, group, category).value + [r.value.1])
      && Handler.Elsewhere(r.value.0.store, s.store, group, category)
    ensures r.Ok? ==> Inv(r.value.0) && r.value.0.view == s.view
  {
    var record := Record(source, proxy, metadata, []);
    var s' :- WithStore(s, Handler.UpdateData(s.store, group, category, Some(record), "data", "", []));
    Ok((s', record))
  }

  /** The thumbnail filters: `tag in tags` and a case-blind search in the source's file name. */
  function Shown(tag: string, search: string): Record -> bool {
    (record: Record) =>
      (tag == "" || tag in record.tags)
      && (search == "" || Contains(Lower(Basename(record.source)), Lower(search)))
  }

  /**
   * `thumbnail_data(group, category, tag, search_string)`, reading the store
   * directly.  An empty tag or search stands for None: both are false in Python.
   */
  function ThumbnailData(s: State, group: string, category: string, tag: string, search: string): (r: Result<seq<Record>>)
    ensures r.Ok? <==> HasKey(s.store.data, group)
    ensures r.Err? ==> r.error == KeyError(group)
    ensures r.Ok? && Items(s.store, group, category).None? ==> r.value == []
    ensures r.Ok? && tag == "" && search == "" ==> Items(s.store, group, category) == Some(r.value) || r.value == []
    ensures r.Ok? ==> forall x :: x in r.value <==>
      (Items(s.store, group, category).Some? && x in Items(s.store, group, category).value && Shown(tag, search)(x))
  {
    match Get(s.store.data, group)
    case None => Err(KeyError(group))
    case Some(cats) =>
      var items := Get(cats, category).GetOr([]);
      if tag == "" && search == "" then
        assert forall x :: Shown(tag, search)(x);
        Ok(items)
      else Ok(Filter(items, Shown(tag, search)))
  }

  /** Without filters the whole list comes back in order; with them, an order-preserving sublist. */
  lemma ThumbnailDataIsFilter(s: State, group: string, category: string, tag: string, search: string)
    requires HasKey(s.store.data, group)
    ensures ThumbnailData(s, group, category, tag, search)
         == Ok(Filter(Items(s.store, group, category).GetOr([]), Shown(tag, search)))
  {
    if tag == "" && search == "" {
      var items := Items(s.store, group, category).GetOr([]);
      assert forall i :: 0 <= i < |items| ==> Shown(tag, search)(items[i]);
      FilterAll(items, Shown(tag, search));
    }
  }

  /** `remove_data(group, category, source_files)`: deletes the listed records, keeping the others in order. */
  function RemoveData(s: State, group: string, category: string, sourceFiles: seq<string>): (r: Result<State>)
    requires Inv(s)
    ensures r.Ok? <==> Items(s.store, group, category).Some?
    ensures r.Ok? ==> Inv(r.value) && r.value.view == s.view
    ensures r.Ok? ==>
      Items(r.value.store, group, category) == Some(Filter(Items(s.store, group, category).value, Handler.Unlisted(sourceFiles)))
  {
    WithStore(s, Handler.RemoveData(s.store, group, category, sourceFiles, None))
  }

  /** `create_tag(tag)`: the stored registry gains the tag once; the cached list gains it every time. */
  function CreateTag(s: State, tag: string): (r: State)
    requires Inv(s)
    ensures Inv(r) && r.view == s.view && r.store.data == s.store.data
    ensures r.tags == s.tags + [tag]
    ensures tag != "" ==> tag in r.store.tags && (NoDup(s.store.tags) ==> NoDup(r.store.tags))
    ensures tag == "" ==> r.store == s.store
  {
    var doc := Handler.UpdateData(s.store, "", "", None, "tags", tag, []).value;
    State(doc, s.view, s.tags + [tag])
  }

  /** Creating a tag that is already registered still grows the cached list, so it holds the tag twice. */
  lemma CreateTagTwice(s: State, tag: string)
    requires Inv(s) && tag != ""
    ensures var r := CreateTag(CreateTag(s, tag), tag);
      |r.tags| == |s.tags| + 2 && r.tags[|r.tags| - 1] == r.tags[|r.tags| - 2] == tag
      && r.store.tags == CreateTag(s, tag).store.tags
  {
  }

  /**
   * `add_tag(group, category, source_files, tag)`.  With an empty tag the
   * store's "no record, no tag" test fires and the category is emptied.
   */
  function AddTag(s: State, group: string, category: string, sourceFiles: seq<string>, tag: string): (r: Result<State>)
    requires Inv(s)
    ensures group != "" && category != "" && tag != "" && |sourceFiles| > 0 ==>
      r == WithStore(s, Handler.TagCategory(s.store, group, category, sourceFiles, tag))
    ensures group != "" && category != "" && tag != "" && |sourceFiles| == 0 ==> r == Ok(s)
    ensures group != "" && category != "" && tag == "" && r.Ok? ==> Items(r.value.store, group, category) == Some([])
    ensures r.Ok? ==> Inv(r.value) && r.value.view == s.view
  {
    WithStore(s, Handler.UpdateData(s.store, group, category, None, "data", tag, sourceFiles))
  }

  /** `remove_tag(group, category, source_files, tag)`: untags every record of the category, listed or not. */
  function RemoveTag(s: State, group: string, category: string, sourceFiles: seq<string>, tag: string): (r: Result<State>)
    requires Inv(s)
    ensures r.Ok? <==> Items(s.store, group, category).Some?
    ensures r.Ok? ==> Inv(r.value) && r.value.view == s.view
    ensures r.Ok? ==>
      Items(r.value.store, group, category) == Some(Handler.Sweep(Items(s.store, group, category).value, sourceFiles, Some(tag)))
  {
    WithStore(s, Handler.RemoveData(s.store, group, category, sourceFiles, Some(tag)))
  }

  /** `is_category_exists(group, category)`: present and non-empty. */
  function IsCategoryExists(s: State, group: string, category: string): (r: bool)
    ensures r <==> Items(s.store, group, category).Some? && |Items(s.store, group, category).value| > 0
  {
    Handler.IsCategoryItemExists(s.store, group, category)
  }

  /**
   * `refresh()`: the store is pointed at the data file the preferences now
   * name and re-reads it; `read` is the document found there (written with
   * the defaults first when the file was missing).  The facade views the new
   * dict, while its tag list stays the copy taken at start-up.
   */
  function Refresh(s: State, read: Doc): (r: State)
    requires WellFormed(read)
    ensures Inv(r)
    ensures r.store == read && ViewData(r) == read.data
    ensures r.tags == s.tags
  {
    State(read, Live, s.tags)
  }

  /** After a refresh the groups listed are those of the file read, whatever the view showed before. */
  lemma RefreshListsReadGroups(s: State, read: Doc, group: string, category: string)
    requires WellFormed(read)
    ensures group in Groups(Refresh(s, read)) <==> HasKey(read.data, group)
    ensures category in Categories(Refresh(s, read), group) <==>
      Get(read.data, group).Some? && HasKey(Get(read.data, group).value, category)
  {
  }
}
