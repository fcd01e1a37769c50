/**
 * The JSON document store behind the library (`DataJson`): adding, tagging,
 * removing and renaming categories and records.  Each operation is a function
 * from the document before to the document after, or to the exception the
 * Python code raises part way.  Writing the file afterwards is not modelled.
 */
module Handler {
  import opened Wrappers
  import opened Seqs
  import opened Dicts
  import opened Media
  import opened Document
  import opened Strings
  import opened CategoryPattern
  import opened Replacement

  /** `b` differs from `a` at most in `data[group][category]`. */
  ghost predicate Elsewhere(a: Doc, b: Doc, group: string, category: string) {
    a.tags == b.tags && Keys(a.data) == Keys(b.data)
    && forall g, c :: (g != group || c != category) ==> Items(a, g, c) == Items(b, g, c)
  }

  /** `data[group] = {}`: the group exists afterwards and is empty, whatever categories it had. */
  function ResetGroup(doc: Doc, group: string): (r: Doc)
    requires WellFormed(doc)
    ensures WellFormed(r)
    ensures Get(r.data, group) == Some([])
    ensures forall g :: g != group ==> Get(r.data, g) == Get(doc.data, g)
    ensures r.tags == doc.tags
  {
    SetGroupWellFormed(doc, group, []);
    Doc(Set(doc.data, group, []), doc.tags)
  }

  /** `data[group][category] = items`: KeyError when the group is missing. */
  function SetCategory(doc: Doc, group: string, category: string, items: seq<Record>): (r: Result<Doc>)
    requires WellFormed(doc)
    ensures r.Ok? <==> HasKey(doc.data, group)
    ensures r.Err? ==> r.error == KeyError(group)
    ensures r.Ok? ==> WellFormed(r.value)
    ensures r.Ok? ==> Items(r.value, group, category) == Some(items)
    ensures r.Ok? ==> Elsewhere(r.value, doc, group, category)
  {
    match Get(doc.data, group)
    case None => Err(KeyError(group))
    case Some(cats) =>
      GroupValid(doc, group);
      var cats' := Set(cats, category, items);
      SetGroupWellFormed(doc, group, cats');
      Ok(Doc(Set(doc.data, group, cats'), doc.tags))
  }

  /** `data[group][category]`, raising KeyError for whichever key is missing first. */
  function LookupItems(doc: Doc, group: string, category: string): (r: Result<seq<Record>>)
    ensures r.Ok? <==> Items(doc, group, category).Some?
    ensures r.Ok? ==> Items(doc, group, category) == Some(r.value)
    ensures r.Err? ==> r.error == KeyError(if HasKey(doc.data, group) then category else group)
  {
    match Get(doc.data, group)
    case None => Err(KeyError(group))
    case Some(cats) => Lookup(cats, category, category)
  }

  /** `data[group][category].append(record)`: the record lands at the end and nothing else moves. */
  function AppendRecord(doc: Doc, group: string, category: string, record: Record): (r: Result<Doc>)
    requires WellFormed(doc)
    ensures r.Ok? <==> Items(doc, group, category).Some?
    ensures r.Err? ==> r.error.KeyError?
    ensures r.Ok? ==> WellFormed(r.value) && Elsewhere(r.value, doc, group, category)
    ensures r.Ok? ==> Items(r.value, group, category) == Some(Items(doc, group, category).value + [record])
  {
    var items :- LookupItems(doc, group, category);
    SetCategory(doc, group, category, items + [record])
  }

  /** One record after the tag-adding loop body: it gains `tag` when its source is listed and it lacks the tag. */
  function TagRecord(record: Record, sourceFiles: seq<string>, tag: string): (r: Record)
    ensures r.source == record.source && r.proxy == record.proxy && r.metadata == record.metadata
    ensures tag in r.tags <==> tag in record.tags || record.source in sourceFiles
    ensures |record.tags| <= |r.tags| && r.tags[..|record.tags|] == record.tags
    ensures forall t :: t != tag ==> (t in r.tags <==> t in record.tags)
    ensures NoDup(record.tags) ==> NoDup(r.tags)
  {
    if record.source in sourceFiles && tag !in record.tags then
      NoDupAppend(record.tags, tag);
      record.(tags := record.tags + [tag])
    else record
  }

  /** The tag-adding branch of `update_data`: every listed record of the category carries `tag` once afterwards. */
  function TagCategory(doc: Doc, group: string, category: string, sourceFiles: seq<string>, tag: string): (r: Result<Doc>)
    requires WellFormed(doc)
    ensures r.Ok? <==> Items(doc, group, category).Some?
    ensures r.Err? ==> r.error.KeyError?
    ensures r.Ok? ==> WellFormed(r.value) && Elsewhere(r.value, doc, group, category)
    ensures r.Ok? ==> Items(r.value, group, category).Some?
    ensures r.Ok? ==>
      var before := Items(doc, group, category).value;
      var after := Items(r.value, group, category).value;
      |after| == |before|
      && forall i :: 0 <= i < |before| ==>
           after[i].source == before[i].source
           && (tag in after[i].tags <==> tag in before[i].tags || before[i].source in sourceFiles)
           && (NoDup(before[i].tags) ==> NoDup(after[i].tags))
  {
    var items :- LookupItems(doc, group, category);
    var tagged := seq(|items|, i requires 0 <= i < |items| => TagRecord(items[i], sourceFiles, tag));
    SetCategory(doc, group, category, tagged)
  }

  /** The registry branch: a tag is appended only when it is not registered yet. */
  function RegisterTag(tags: seq<string>, tag: string): (r: seq<string>)
    ensures forall t :: t in r <==> t in tags || t == tag
    ensures |tags| <= |r| <= |tags| + 1 && r[..|tags|] == tags
    ensures NoDup(tags) ==> NoDup(r)
  {
    if tag !in tags then
      NoDupAppend(tags, tag);
      tags + [tag]
    else tags
  }

  /**
   * `update_data(group, category, data, data_type, tag, source_files)`.  An
   * empty string, a missing record and an empty source list are all false in
   * the Python tests, which are taken in the source's order.
   */
  function UpdateData(doc: Doc, group: string, category: string, data: Option<Record>,
                      dataType: string, tag: string, sourceFiles: seq<string>): (r: Result<Doc>)
    requires WellFormed(doc)
    ensures r.Ok? ==> WellFormed(r.value)
    ensures dataType == "data" && group == "" ==> r.Err? && r.error.KeyError?
    ensures dataType == "data" && group != "" && category == "" ==>
      r.Ok? && Get(r.value.data, group) == Some([]) && r.value.tags == doc.tags
      && forall g :: g != group ==> Get(r.value.data, g) == Get(doc.data, g)
    ensures dataType == "data" && group != "" && category != "" && data.Some? && tag == "" ==>
      (r.Ok? <==> Items(doc, group, category).Some?)
      && (r.Ok? ==> Elsewhere(r.value, doc, group, category)
                    && Items(r.value, group, category) == Some(Items(doc, group, category).value + [data.value]))
    ensures dataType == "data" && group != "" && category != "" && data.None? && tag == "" ==>
      (r.Ok? <==> HasKey(doc.data, group))
      && (r.Ok? ==> Elsewhere(r.value, doc, group, category) && Items(r.value, group, category) == Some([]))
    ensures dataType == "data" && group != "" && category != "" && tag != "" && |sourceFiles| > 0 ==>
      r == TagCategory(doc, group, category, sourceFiles, tag)
    ensures dataType == "data" && group != "" && category != "" && tag != "" && |sourceFiles| == 0 ==> r == Ok(doc)
    ensures dataType == "tags" && tag != "" ==>
      r.Ok? && r.value.data == doc.data && r.value.tags == RegisterTag(doc.tags, tag)
    ensures dataType != "data" && (dataType != "tags" || tag == "") ==> r == Ok(doc)
  {
    if dataType == "data" then
      if group == "" then Err(KeyError("\"group\" is must for data type \"data\"!"))
      else if category == "" then Ok(ResetGroup(doc, group))
      else if data.Some? && tag == "" then AppendRecord(doc, group, category, data.value)
      else if data.None? && tag == "" then SetCategory(doc, group, category, [])
      else if |sourceFiles| > 0 && tag != "" then TagCategory(doc, group, category, sourceFiles, tag)
      else Ok(doc)
    else if dataType == "tags" && tag != "" then Ok(doc.(tags := RegisterTag(doc.tags, tag)))
    else Ok(doc)
  }

  /** The predicate `remove_data` deletes by: the record's source is not listed. */
  function Unlisted(sourceFiles: seq<string>): Record -> bool {
    (record: Record) => record.source !in sourceFiles
  }

  /**
   * The loop of `remove_data` over one category.  Without a tag it drops the
   * records whose source is listed; with a non-empty tag it keeps every record,
   * listed or not, and removes the tag's first occurrence from each that has it.
   */
  function Sweep(items: seq<Record>, sourceFiles: seq<string>, tag: Option<string>): (r: seq<Record>)
    ensures |r| <= |items|
    ensures tag.Some? ==> |r| == |items|
    decreases |items|
  {
    if |items| == 0 then []
    else
      var record := items[0];
      var rest := Sweep(items[1..], sourceFiles, tag);
      if record.source in sourceFiles && tag.None? then rest
      else if tag.Some? && tag.value != "" && tag.value in record.tags then
        [record.(tags := RemoveFirst(record.tags, tag.value))] + rest
      else [record] + rest
  }

  /**
   * With a non-empty tag the sweep keeps every record in place, listed or not,
   * and takes exactly one copy of the tag out of each record that carries it.
   */
  lemma {:induction false} SweepUntags(items: seq<Record>, sourceFiles: seq<string>, tag: string, i: nat)
    requires tag != "" && i < |items|
    ensures Untagged(items[i], Sweep(items, sourceFiles, Some(tag))[i], tag)
    decreases i
  {
    if i == 0 {
      SweepHeadUntags(items, sourceFiles, tag);
    } else {
      SweepUntags(items[1..], sourceFiles, tag, i - 1);
      SweepShift(items, sourceFiles, Some(tag), i);
      assert items[1..][i - 1] == items[i];
    }
  }

  /** `after` is `before` with one copy of `tag` taken out of its tags and nothing else changed. */
  predicate Untagged(before: Record, after: Record, tag: string) {
    after.source == before.source && after.proxy == before.proxy && after.metadata == before.metadata
    && multiset(after.tags) == multiset(before.tags) - multiset{tag}
    && (NoDup(before.tags) ==> tag !in after.tags && NoDup(after.tags))
  }

  /** The first record of a tag sweep. */
  lemma SweepHeadUntags(items: seq<Record>, sourceFiles: seq<string>, tag: string)
    requires tag != "" && 0 < |items|
    ensures Untagged(items[0], Sweep(items, sourceFiles, Some(tag))[0], tag)
  {
    var t := items[0].tags;
    if tag !in t {
      assert multiset(t)[tag] == 0;
      assert multiset(t) - multiset{tag} == multiset(t);
    }
  }

  /** A tag sweep keeps positions: record `i` comes from sweeping the rest at `i - 1`. */
  lemma SweepShift(items: seq<Record>, sourceFiles: seq<string>, tag: Option<string>, i: nat)
    requires tag.Some? && 0 < i < |items|
    ensures Sweep(items, sourceFiles, tag)[i] == Sweep(items[1..], sourceFiles, tag)[i - 1]
  {
  }

  /** An empty tag is false in Python but not None: the sweep changes nothing. */
  lemma {:induction false} SweepEmptyTag(items: seq<Record>, sourceFiles: seq<string>)
    ensures Sweep(items, sourceFiles, Some("")) == items
    decreases |items|
  {
    if |items| > 0 {
      SweepEmptyTag(items[1..], sourceFiles);
    }
  }

  /** Without a tag, the sweep is the order-preserving filter of the unlisted records. */
  lemma {:induction false} SweepDeletesListed(items: seq<Record>, sourceFiles: seq<string>)
    ensures Sweep(items, sourceFiles, None) == Filter(items, Unlisted(sourceFiles))
    decreases |items|
  {
    if |items| > 0 {
      SweepDeletesListed(items[1..], sourceFiles);
    }
  }

  /** `remove_data(group, category, source_files, tag)`: KeyError for a missing group or category. */
  function RemoveData(doc: Doc, group: string, category: string, sourceFiles: seq<string>, tag: Option<string>): (r: Result<Doc>)
    requires WellFormed(doc)
    ensures r.Ok? <==> Items(doc, group, category).Some?
    ensures r.Err? ==> r.error.KeyError?
    ensures r.Ok? ==> WellFormed(r.value) && Elsewhere(r.value, doc, group, category)
    ensures r.Ok? ==> Items(r.value, group, category) == Some(Sweep(Items(doc, group, category).value, sourceFiles, tag))
    ensures r.Ok? && tag.None? ==>
      Items(r.value, group, category) == Some(Filter(Items(doc, group, category).value, Unlisted(sourceFiles)))
  {
    var items :- LookupItems(doc, group, category);
    SweepDeletesListed(items, sourceFiles);
    SetCategory(doc, group, category, Sweep(items, sourceFiles, tag))
  }

  /** `data.pop(group)`: the whole group goes, KeyError when it is absent. */
  function RemoveGroup(doc: Doc, group: string): (r: Result<Doc>)
    requires WellFormed(doc)
    ensures r.Ok? <==> HasKey(doc.data, group)
    ensures r.Err? ==> r.error == KeyError(group)
    ensures r.Ok? ==> WellFormed(r.value) && r.value.tags == doc.tags && !HasKey(r.value.data, group)
    ensures r.Ok? ==> forall g :: g != group ==> Get(r.value.data, g) == Get(doc.data, g)
  {
    var data :- Pop(doc.data, group, group);
    var r := Doc(data, doc.tags);
    assert WellFormed(r) by {
      forall i | 0 <= i < |data| ensures Valid(data[i].1) {
        GetAt(data, i);
        var j := Find(doc.data, data[i].0).value;
        GetAt(doc.data, j);
      }
    }
    Ok(r)
  }

  /** The keys that survive removing category `c` and everything below it. */
  function Survives(c: string): string -> bool
    requires Literal(c)
  {
    (k: string) => !KeyMatches(c, k)
  }

  /**
   * Deleting a category from a group: exactly the keys the pattern matches go.
   * `data.get(group).keys()` on a missing group raises AttributeError.
   */
  function RemoveCategory(doc: Doc, group: string, category: string): (r: Result<Doc>)
    requires WellFormed(doc) && Literal(category)
    ensures r.Ok? <==> HasKey(doc.data, group)
    ensures r.Err? ==> r.error == AttributeError("keys")
    ensures r.Ok? ==> WellFormed(r.value) && r.value.tags == doc.tags && Keys(r.value.data) == Keys(doc.data)
    ensures r.Ok? ==> forall g :: g != group ==> Get(r.value.data, g) == Get(doc.data, g)
    ensures r.Ok? ==> forall k :: Items(r.value, group, k) == if KeyMatches(category, k) then None else Items(doc, group, k)
  {
    match Get(doc.data, group)
    case None => Err(AttributeError("keys"))
    case Some(cats) =>
      GroupValid(doc, group);
      var kept := KeepIf(cats, Survives(category));
      KeepIfValid(cats, Survives(category));
      SetGroupWellFormed(doc, group, kept);
      Ok(Doc(Set(doc.data, group, kept), doc.tags))
  }

  /** `remove_key(group, category, data_type, tag)`. */
  function RemoveKey(doc: Doc, group: string, category: string, dataType: string, tag: string): (r: Result<Doc>)
    requires WellFormed(doc)
    requires dataType == "data" && category != "" ==> Literal(category)
    ensures r.Ok? ==> WellFormed(r.value)
    ensures dataType == "data" && category == "" ==> r == RemoveGroup(doc, group)
    ensures dataType == "data" && category != "" ==> r == RemoveCategory(doc, group, category)
    ensures dataType == "tags" ==> r.Ok? && r.value.data == doc.data
    ensures dataType == "tags" ==> forall t :: t != tag ==> (t in r.value.tags <==> t in doc.tags)
    ensures dataType == "tags" && NoDup(doc.tags) ==> tag !in r.value.tags && NoDup(r.value.tags)
    ensures dataType == "tags" && tag !in doc.tags ==> r == Ok(doc)
    ensures dataType != "data" && dataType != "tags" ==> r == Ok(doc)
  {
    if dataType == "data" then
      if category == "" then RemoveGroup(doc, group) else RemoveCategory(doc, group, category)
    else if dataType == "tags" && tag in doc.tags then Ok(doc.(tags := RemoveFirst(doc.tags, tag)))
    else Ok(doc)
  }

  /** The value of the last pair whose renamed key is `k`: the one `duplicate_data[k]` ends up holding. */
  function LastRenamed(cats: Group, oldName: string, t: Template, k: string): Option<seq<Record>>
    requires Literal(oldName)
  {
    if |cats| == 0 then None
    else if Substitute(oldName, t, cats[|cats| - 1].0) == k then Some(cats[|cats| - 1].1)
    else LastRenamed(cats[..|cats| - 1], oldName, t, k)
  }

  /** The loop of `update_key`: every key is rewritten and stored into a fresh dict in iteration order. */
  function Rename(cats: Group, oldName: string, t: Template): (r: Group)
    requires Literal(oldName)
    ensures Valid(r)
    ensures forall k :: Get(r, k) == LastRenamed(cats, oldName, t, k)
  {
    if |cats| == 0 then []
    else
      var last := cats[|cats| - 1];
      Set(Rename(cats[..|cats| - 1], oldName, t), Substitute(oldName, t, last.0), last.1)
  }

  /**
   * `update_key(group, oldName, newName)`: KeyError when the group is missing.
   * `re.sub` reads the new name as a template the first time it runs, so a
   * group with categories and a new name `re` rejects raises before anything
   * changes; an empty group never calls it.
   */
  function UpdateKey(doc: Doc, group: string, oldName: string, newName: string): (r: Result<Doc>)
    requires WellFormed(doc) && Literal(oldName)
    ensures !HasKey(doc.data, group) ==> r == Err(KeyError(group))
    ensures HasKey(doc.data, group) && |Get(doc.data, group).value| > 0 && Parse(newName).Err? ==>
      r == Err(Parse(newName).error)
    ensures r.Ok? <==> HasKey(doc.data, group) && (|Get(doc.data, group).value| == 0 || Parse(newName).Ok?)
    ensures r.Ok? ==> WellFormed(r.value) && r.value.tags == doc.tags && Keys(r.value.data) == Keys(doc.data)
    ensures r.Ok? ==> forall g :: g != group ==> Get(r.value.data, g) == Get(doc.data, g)
    ensures r.Ok? && |Get(doc.data, group).value| == 0 ==> Get(r.value.data, group) == Some([])
    ensures r.Ok? && Parse(newName).Ok? ==>
      forall k :: Items(r.value, group, k) == LastRenamed(Get(doc.data, group).value, oldName, Parse(newName).value, k)
  {
    match Get(doc.data, group)
    case None => Err(KeyError(group))
    case Some(cats) =>
      var t :- if |cats| == 0 then Ok([]) else Parse(newName);
      var renamed := Rename(cats, oldName, t);
      SetGroupWellFormed(doc, group, renamed);
      Ok(Doc(Set(doc.data, group, renamed), doc.tags))
  }

  /** A new name such as `C:\data`, whose `\d` is no escape `re` knows, makes renaming in a non-empty group raise `re.error`. */
  lemma UpdateKeyBadEscape(doc: Doc, group: string, oldName: string)
    requires WellFormed(doc) && Literal(oldName)
    requires HasKey(doc.data, group) && |Get(doc.data, group).value| > 0
    ensures UpdateKey(doc, group, oldName, "C:\\data").Err?
    ensures UpdateKey(doc, group, oldName, "C:\\data").error.ReError?
  {
    BadEscape();
  }

  /** A key that does not match and that no matching key is renamed to keeps its value. */
  lemma {:induction false} RenameKeepsUnrelated(cats: Group, oldName: string, t: Template, k: string)
    requires Literal(oldName) && Valid(cats) && !KeyMatches(oldName, k)
    requires forall j :: 0 <= j < |cats| && KeyMatches(oldName, cats[j].0) ==> Substitute(oldName, t, cats[j].0) != k
    ensures LastRenamed(cats, oldName, t, k) == Get(cats, k)
    decreases |cats|
  {
    if |cats| > 0 {
      var init := cats[..|cats| - 1];
      var last := cats[|cats| - 1];
      assert cats == init + [last];
      assert Keys(init) == Keys(cats)[..|cats| - 1];
      RenameKeepsUnrelated(init, oldName, t, k);
      forall q ensures Get(cats, q) == if q == last.0 then Some(last.1) else Get(init, q) {
        assert Keys(cats)[|cats| - 1] == last.0;
        assert Find(init, last.0).None? by {
          forall j | 0 <= j < |init| ensures init[j].0 != last.0 {
            assert Keys(cats)[j] == init[j].0;
          }
        }
        FindAppend(init, last.0, last.1, q);
      }
    }
  }

  /** The value renaming leaves under `k`, when some matching key is renamed to `k`, is that of the last such key. */
  lemma {:induction false} RenameMatchedIsLast(cats: Group, oldName: string, t: Template, i: nat)
    requires Literal(oldName) && i < |cats|
    requires forall j :: i < j < |cats| ==> Substitute(oldName, t, cats[j].0) != Substitute(oldName, t, cats[i].0)
    ensures LastRenamed(cats, oldName, t, Substitute(oldName, t, cats[i].0)) == Some(cats[i].1)
    decreases |cats|
  {
    if i < |cats| - 1 {
      RenameMatchedIsLast(cats[..|cats| - 1], oldName, t, i);
    }
  }

  /**
   * With a constant new name, no key the category or its descendants held
   * survives the rename: each of them, already in the group or not, is
   * rewritten to the new name, so the group keeps none of them.
   */
  lemma {:induction false} RenameDropsDescendants(cats: Group, oldName: string, t: Template, k: string)
    requires Literal(oldName) && Constant(t) && '\n' !in k
    requires KeyMatches(oldName, k) && k != Expand(t, "", "")
    ensures LastRenamed(cats, oldName, t, k) == None
    decreases |cats|
  {
    if |cats| > 0 {
      var key := cats[|cats| - 1].0;
      if KeyMatches(oldName, key) {
        var m := MatchText(key);
        ConstantExpand(t, m, m[|oldName|..]);
        var s := Substitute(oldName, t, key);
        if s != Expand(t, "", "") {
          assert s[|s| - 1] == '\n';
        }
      }
      RenameDropsDescendants(cats[..|cats| - 1], oldName, t, k);
    }
  }

  /** What `data_by_key` returns: the group's dict, or one category's list (or None). */
  datatype ByKey = WholeGroup(categories: Group) | CategoryItems(items: Option<seq<Record>>)

  /** `data_by_key(group, category)`: a missing group reads as empty. */
  function DataByKey(doc: Doc, group: string, category: string): (r: ByKey)
    ensures category == "" ==> r.WholeGroup? && (HasKey(doc.data, group) ==> Get(doc.data, group) == Some(r.categories))
    ensures category == "" && !HasKey(doc.data, group) ==> r == WholeGroup([])
    ensures category != "" ==> r.CategoryItems? && r.items == Items(doc, group, category)
  {
    var cats := Get(doc.data, group).GetOr([]);
    if category != "" then CategoryItems(Get(cats, category)) else WholeGroup(cats)
  }

  /** `is_category_item_exists`: the category exists and holds at least one record. */
  function IsCategoryItemExists(doc: Doc, group: string, category: string): (r: bool)
    ensures r <==> Items(doc, group, category).Some? && |Items(doc, group, category).value| > 0
  {
    match Get(doc.data, group)
    case None => false
    case Some(cats) => Get(cats, category).Some? && |Get(cats, category).value| > 0
  }

  /** An existing but emptied category reports as not existing. */
  lemma EmptiedCategoryNotExists(doc: Doc, group: string, category: string)
    requires WellFormed(doc) && HasKey(doc.data, group)
    ensures SetCategory(doc, group, category, []).Ok?
    ensures !IsCategoryItemExists(SetCategory(doc, group, category, []).value, group, category)
  {
  }

  /** A record appended to a category makes the category count as existing. */
  lemma AppendedCategoryExists(doc: Doc, group: string, category: string, record: Record)
    requires WellFormed(doc) && AppendRecord(doc, group, category, record).Ok?
    ensures IsCategoryItemExists(AppendRecord(doc, group, category, record).value, group, category)
  {
  }
}
