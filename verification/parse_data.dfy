/**
 * The pure variant of proxy-path derivation: the same layout as `Utilities`,
 * with no existence test and no slash normalisation, and a drop scan that
 * yields one tuple per scanned entry whether or not a proxy could be named.
 *
 * As written, this variant reads the format tuples under lower-case names
 * the configuration does not define; `ProxyPathAsWritten` and
 * `DroppedFilesAsWritten` keep that behaviour, the rest of the module
 * uses the configured tuples.
 */
module ParseData {
  import opened Wrappers
  import opened Strings
  import opened Config
  import opened Utilities

  /** `get_proxy_files_from_source_file`: `.mov` for sequences and videos, `.png` for images, None otherwise. */
  function ProxyPathPure(source: string, root: string, group: string, category: string,
                         isImageSequence: bool): (r: Option<string>)
    ensures r.None? <==> !isImageSequence && !IsVideo(source) && !IsImage(source)
    ensures r.Some? ==> r.value == ProxyCandidate(source, root, group, category, isImageSequence)
    ensures r.Some? && (isImageSequence || IsVideo(source)) ==> EndsWith(r.value, ".mov")
    ensures r.Some? && !isImageSequence && !IsVideo(source) ==> EndsWith(r.value, ".png")
  {
    var stem := ProxyDir(root, group, category) + "/" + ProxyName(source);
    if isImageSequence || IsVideo(source) then
      assert (stem + ".mov")[|stem|..] == ".mov";
      Some(stem + ".mov")
    else if IsImage(source) then
      assert (stem + ".png")[|stem|..] == ".png";
      Some(stem + ".png")
    else None
  }

  /** Where no proxy file exists yet and no backslash is involved, both variants name the same proxy. */
  lemma PureAgreesWithChecked(source: string, root: string, group: string, category: string,
                              isImageSequence: bool, isFile: string -> bool)
    requires isImageSequence || IsVideo(source) || IsImage(source)
    requires !isFile(ProxyCandidate(source, root, group, category, isImageSequence))
    requires '\\' !in ProxyCandidate(source, root, group, category, isImageSequence)
    ensures ProxyPath(source, root, group, category, isImageSequence, isFile)
         == ProxyPathPure(source, root, group, category, isImageSequence)
  {
    var p := ProxyCandidate(source, root, group, category, isImageSequence);
    assert SubstChar(p, '\\', '/') == p;
  }

  /** A drop result of the pure variant: (source, proxy if one is named, is image sequence). */
  type Scanned = (string, Option<string>, bool)

  /** `_get_proxy_for_file`: a single file always yields its tuple, supported or not. */
  function ProxyForFile(path: string, root: string, group: string, category: string): (r: Scanned)
    ensures r.0 == path && !r.2
    ensures r.1 == ProxyPathPure(path, root, group, category, false)
  {
    (path, ProxyPathPure(path, root, group, category, false), false)
  }

  /** One scanned directory entry: a sequence always names its `.mov` proxy, a loose file goes through `ProxyForFile`. */
  function ScanEntry(e: Entry, root: string, group: string, category: string): (r: Scanned)
    ensures e.Sequence? ==> r == (e.head + " " + e.range, Some(ProxyCandidate(e.head, root, group, category, true)), true)
    ensures e.Loose? ==> r == ProxyForFile(e.path, root, group, category)
  {
    match e
    case Sequence(head, range) =>
      (head + " " + range, ProxyPathPure(head, root, group, category, true), true)
    case Loose(f) => ProxyForFile(f, root, group, category)
  }

  /** `get_dropped_files_with_proxy_path`, pure variant: one tuple per file or per scanned entry. */
  function DroppedFilesPure(kind: Kind, path: string, root: string, group: string, category: string,
                            collections: seq<string>, remainders: seq<string>): (r: seq<Scanned>)
    ensures kind == Absent ==> r == []
    ensures kind == RegularFile ==> r == [ProxyForFile(path, root, group, category)]
    ensures kind == Directory ==> |r| == |ImageSequence(path, collections, remainders)|
    ensures kind == Directory ==> forall i :: 0 <= i < |r| ==>
      r[i] == ScanEntry(ImageSequence(path, collections, remainders)[i], root, group, category)
  {
    match kind
    case Absent => []
    case RegularFile => [ProxyForFile(path, root, group, category)]
    case Directory =>
      var entries := ImageSequence(path, collections, remainders);
      seq(|entries|, i requires 0 <= i < |entries| => ScanEntry(entries[i], root, group, category))
  }

  /** Every entry a directory scan yields is supported, so each of its tuples names a proxy. */
  lemma DirectoryDropsNameProxies(path: string, root: string, group: string, category: string,
                                  collections: seq<string>, remainders: seq<string>)
    ensures forall d :: d in DroppedFilesPure(Directory, path, root, group, category, collections, remainders) ==> d.1.Some?
  {
    var entries := ImageSequence(path, collections, remainders);
    var r := DroppedFilesPure(Directory, path, root, group, category, collections, remainders);
    forall i | 0 <= i < |r| ensures r[i].1.Some? {
      assert entries[i] in entries;
    }
  }

  /**
   * The derivation as written: the sequence flag short-circuits the format
   * test; any other source reads the undefined lower-case video tuple.
   */
  function ProxyPathAsWritten(source: string, root: string, group: string, category: string,
                              isImageSequence: bool): (r: Result<Option<string>>)
    ensures isImageSequence ==> r == Ok(ProxyPathPure(source, root, group, category, true))
    ensures !isImageSequence ==> r == Err(AttributeError("supported_video_formats"))
  {
    if isImageSequence then Ok(ProxyPathPure(source, root, group, category, true))
    else Err(AttributeError("supported_video_formats"))
  }

  /**
   * The drop scan as written: a dropped file reaches the undefined tuple at
   * once, and a directory raises at its first collection or loose file,
   * before anything is yielded.
   */
  function DroppedFilesAsWritten(kind: Kind, path: string, root: string, group: string, category: string,
                                 collections: seq<string>, remainders: seq<string>): (r: Result<seq<Scanned>>)
    ensures kind == RegularFile ==> r.Err?
    ensures kind == Directory ==> (r.Err? <==> |collections| + |remainders| > 0)
    ensures r.Ok? ==> r.value == []
  {
    match kind
    case Absent => Ok([])
    case RegularFile =>
      (match ProxyPathAsWritten(path, root, group, category, false)
       case Err(e) => Err(e)
       case Ok(p) => Ok([(path, p, false)]))
    case Directory =>
      if |collections| > 0 || |remainders| > 0 then Err(AttributeError("supported_image_formats"))
      else Ok([])
  }

  /** Every dropped file fails as written, where the configured tuples yield its one tuple. */
  lemma DroppedFileFailsAsWritten(path: string, root: string, group: string, category: string)
    ensures DroppedFilesAsWritten(RegularFile, path, root, group, category, [], []).Err?
    ensures |DroppedFilesPure(RegularFile, path, root, group, category, [], [])| == 1
  {
  }
}
