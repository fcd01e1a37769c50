/**
 * The asset-library document: `{"data": {group: {category: [record, ...]}}, "tags": [...]}`.
 * Categories are `|`-joined paths such as `root|plates|fire`; a record is the
 * dict `{proxy, source, metadata, tags}` that `add_proxy_data` builds.
 */
module Document {
  import opened Wrappers
  import opened Dicts
  import opened Media

  datatype Record = Record(source: string, proxy: string, metadata: Metadata, tags: seq<string>)

  type Group = Dict<string, seq<Record>>
  type DataMap = Dict<string, Group>

  datatype Doc = Doc(data: DataMap, tags: seq<string>)

  /** Every dict of the document holds each key once. */
  predicate WellFormed(doc: Doc) {
    Valid(doc.data) && forall i :: 0 <= i < |doc.data| ==> Valid(doc.data[i].1)
  }

  /** `data[group][category]`, when both keys exist. */
  function Items(doc: Doc, group: string, category: string): Option<seq<Record>> {
    match Get(doc.data, group)
    case None => None
    case Some(g) => Get(g, category)
  }

  /** The groups of a well-formed document are well-formed dicts. */
  lemma GroupValid(doc: Doc, group: string)
    requires WellFormed(doc) && HasKey(doc.data, group)
    ensures Valid(Get(doc.data, group).value)
  {
    var i := Find(doc.data, group).value;
    assert doc.data[i].1 == Get(doc.data, group).value;
  }

  /** Replacing one group by a well-formed dict keeps the document well-formed. */
  lemma SetGroupWellFormed(doc: Doc, group: string, g: Group)
    requires WellFormed(doc) && Valid(g)
    ensures WellFormed(Doc(Set(doc.data, group, g), doc.tags))
  {
    var d := Set(doc.data, group, g);
    forall i | 0 <= i < |d| ensures Valid(d[i].1) {
      GetAt(d, i);
      if d[i].0 != group {
        var j := Find(doc.data, d[i].0).value;
        GetAt(doc.data, j);
      }
    }
  }
}
