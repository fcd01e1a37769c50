/**
 * Proxy-path derivation and drop scanning.  A proxy lives at
 * `{root}/{group}/{category segments after the first}/{source name without extension}`
 * plus `.mov` for sequences and videos or `.png` for images.  The filesystem
 * is a parameter: `isFile` answers `os.path.isfile` for a path, and the
 * directory listing arrives already grouped by `clique.assemble`, as the
 * collections' printed forms (`name.%04d.exr [1001-1100]`) and the loose
 * file names.
 */
module Utilities {
  import opened Wrappers
  import opened Strings
  import opened Numerals
  import opened Paths
  import opened Config

  /** `get_proxy_thumbnail`: a `.mov` proxy's thumbnail is the same path with `.png` for every `.mov`. */
  function ProxyThumbnail(proxy: Option<string>): (r: Option<string>)
    ensures proxy.None? || proxy == Some("") ==> r.None?
    ensures proxy.Some? && proxy.value != "" && !EndsWith(proxy.value, ".mov") ==> r == proxy
    ensures proxy.Some? && EndsWith(proxy.value, ".mov") ==> r.Some? && EndsWith(r.value, ".png")
    ensures proxy.Some? && EndsWith(proxy.value, ".mov") ==> r == Some(Join(Split(proxy.value, ".mov"), ".png"))
  {
    match proxy
    case None => None
    case Some(p) =>
      if p == "" then None
      else if EndsWith(p, ".mov") then
        MovToPngEndsPng(p);
        Some(Replace(p, ".mov", ".png"))
      else Some(p)
  }

  lemma MovToPngEndsPng(p: string)
    requires EndsWith(p, ".mov")
    ensures EndsWith(Replace(p, ".mov", ".png"), ".png")
  {
    MovOverlapFree();
    SplitEndsEmpty(p, ".mov");
    JoinEndsWithSep(Split(p, ".mov"), ".png");
  }

  /** A proxy `stem.mov` whose stem holds no other `.mov` has the thumbnail `stem.png`. */
  lemma ProxyThumbnailOfStem(stem: string)
    requires !Contains(stem, ".mov")
    ensures ProxyThumbnail(Some(stem + ".mov")) == Some(stem + ".png")
  {
    var p := stem + ".mov";
    assert EndsWith(p, ".mov") by { assert p[|p| - 4..] == ".mov"; }
    assert Split(p, ".mov") == [stem, ""] by {
      MovOverlapFree();
      assert !Contains("", ".mov");
      assert p == stem + ".mov" + "";
      SplitTwo(stem, "", ".mov");
    }
    assert Join([stem, ""], ".png") == stem + ".png";
    assert p != "" && ProxyThumbnail(Some(p)) == Some(Join(Split(p, ".mov"), ".png"));
    assert Join(Split(p, ".mov"), ".png") == stem + ".png";
  }

  lemma MovOverlapFree()
    ensures OverlapFree(".mov")
  {
    var m := ".mov";
    forall d | 0 < d < |m| ensures m[d..] != m[..|m| - d] {
      assert m[d..][0] != m[..|m| - d][0];
    }
  }

  /** The proxy directory for a category: its `|`-separated segments after the first, joined by `/`. */
  function ProxyDir(root: string, group: string, category: string): (r: string)
    ensures StartsWith(r, root + "/" + group + "/")
    ensures '|' !in r[|root + "/" + group + "/"|..]
  {
    var parts := Split(category, "|")[1..];
    forall i | 0 <= i < |parts| ensures '|' !in parts[i] {
      ContainsChar(parts[i], '|');
    }
    JoinAvoids(parts, "/", '|');
    var r := root + "/" + group + "/" + Join(parts, "/");
    assert r[|root + "/" + group + "/"|..] == Join(parts, "/");
    r
  }

  /** A one-segment category (a top-level one) leaves the middle component empty. */
  lemma ProxyDirTopLevel(root: string, group: string, category: string)
    requires '|' !in category
    ensures ProxyDir(root, group, category) == root + "/" + group + "/"
  {
    ContainsChar(category, '|');
    assert Split(category, "|") == [category];
  }

  /** The directory part keeps every nested segment: splitting it on `/` gives them back. */
  lemma ProxyDirSegments(root: string, group: string, segments: seq<string>)
    requires |segments| >= 2
    requires forall i :: 0 <= i < |segments| ==> '|' !in segments[i] && '/' !in segments[i]
    ensures var category := Join(segments, "|");
      ProxyDir(root, group, category) == root + "/" + group + "/" + Join(segments[1..], "/")
      && Split(Join(segments[1..], "/"), "/") == segments[1..]
  {
    SplitOfJoin(segments, '|');
    SplitOfJoin(segments[1..], '/');
  }

  /** The file name of a proxy: the source's base name without its extension. */
  function ProxyName(source: string): (r: string)
    ensures '/' !in r
    ensures EndsWith(Splitext(source).0, r)
    ensures r == Splitext(source).0 || Splitext(source).0[|Splitext(source).0| - |r| - 1] == '/'
    ensures '/' !in Splitext(source).0 ==> r == Splitext(source).0
  {
    Basename(Splitext(source).0)
  }

  /** The proxy's extension: `.mov` for sequences and videos, `.png` for images, none otherwise. */
  function ProxySuffix(source: string, isImageSequence: bool): (r: string)
    ensures isImageSequence || IsVideo(source) ==> r == ".mov"
    ensures !isImageSequence && !IsVideo(source) && IsImage(source) ==> r == ".png"
    ensures !isImageSequence && !IsVideo(source) && !IsImage(source) ==> r == ""
  {
    if isImageSequence || IsVideo(source) then ".mov"
    else if IsImage(source) then ".png"
    else ""
  }

  /** The path the proxy would be written to, before any existence test. */
  function ProxyCandidate(source: string, root: string, group: string, category: string, isImageSequence: bool): string {
    ProxyDir(root, group, category) + "/" + ProxyName(source) + ProxySuffix(source, isImageSequence)
  }

  /**
   * `get_proxy_files_from_source_file`: None when a file already exists at the
   * derived path, otherwise the path with every backslash turned into a slash.
   */
  function ProxyPath(source: string, root: string, group: string, category: string,
                     isImageSequence: bool, isFile: string -> bool): (r: Option<string>)
    ensures r.None? <==> isFile(ProxyCandidate(source, root, group, category, isImageSequence))
    ensures r.Some? ==> r.value == SubstChar(ProxyCandidate(source, root, group, category, isImageSequence), '\\', '/')
  {
    var p := ProxyCandidate(source, root, group, category, isImageSequence);
    if isFile(p) then None
    else
      ReplaceIsSubstChar(p, '\\', '/');
      Some(Replace(p, "\\", "/"))
  }

  /** A proxy path has no backslash and ends with the extension its source calls for. */
  lemma ProxyPathShape(source: string, root: string, group: string, category: string,
                       isImageSequence: bool, isFile: string -> bool)
    requires ProxyPath(source, root, group, category, isImageSequence, isFile).Some?
    ensures '\\' !in ProxyPath(source, root, group, category, isImageSequence, isFile).value
    ensures EndsWith(ProxyPath(source, root, group, category, isImageSequence, isFile).value,
                     ProxySuffix(source, isImageSequence))
  {
    var p := ProxyCandidate(source, root, group, category, isImageSequence);
    var suffix := ProxySuffix(source, isImageSequence);
    var prefix := ProxyDir(root, group, category) + "/" + ProxyName(source);
    assert p == prefix + suffix;
    assert p[|p| - |suffix|..] == suffix;
    SubstCharEndsWith(p, '\\', '/', suffix);
    ReplaceIsSubstChar(p, '\\', '/');
    ReplaceCharRemoves(p, '\\', '/');
  }

  /** What the directory scan yields: a sequence as (head path, frame range), or a loose file path. */
  datatype Entry = Sequence(head: string, range: string) | Loose(path: string)

  /** Python's `s[:-1]`: everything but the last character, and "" for "". */
  function DropLast(s: string): (r: string)
    ensures |r| == if |s| == 0 then 0 else |s| - 1
    ensures r == s[..|r|]
  {
    if |s| == 0 then "" else s[..|s| - 1]
  }

  /** One collection, printed as `head [range]`: yielded when its head names an image format. */
  function CollectionEntry(directory: string, collection: string): (r: Option<Entry>)
    ensures r.Some? ==> r.value.Sequence?
    ensures r.Some? <==> IsImage(Split(collection, " [")[0])
    ensures r.Some? ==> r.value.head == directory + "/" + Split(collection, " [")[0]
  {
    var parts := Split(collection, " [");
    if IsImage(parts[0]) then Some(Sequence(directory + "/" + parts[0], DropLast(parts[|parts| - 1])))
    else None
  }

  /** `clique.Collection` prints as `head [range]`; its entry splits back into the two. */
  lemma CollectionRoundTrip(directory: string, head: string, range: string)
    requires !Contains(head, " [") && !Contains(range, " [") && IsImage(head)
    ensures CollectionEntry(directory, head + " [" + range + "]") == Some(Sequence(directory + "/" + head, range))
  {
    RangeCloseAvoids(range);
    BracketOverlapFree();
    SplitTwo(head, range + "]", " [");
    assert head + " [" + (range + "]") == head + " [" + range + "]";
    assert DropLast(range + "]") == range;
  }

  lemma BracketOverlapFree()
    ensures OverlapFree(" [")
  {
    var m := " [";
    forall d | 0 < d < |m| ensures m[d..] != m[..|m| - d] {
      assert m[d..][0] != m[..|m| - d][0];
    }
  }

  lemma RangeCloseAvoids(range: string)
    requires !Contains(range, " [")
    ensures !Contains(range + "]", " [")
  {
    var t := range + "]";
    ContainsIff(range, " [");
    forall j | 0 <= j ensures !At(t, " [", j) {
      if j + 2 <= |range| {
        assert t[j..j + 2] == range[j..j + 2];
        assert !At(range, " [", j);
      } else if j + 2 == |t| {
        assert t[j..j + 2][1] == t[j + 1] == ']';
      }
    }
    ContainsIff(t, " [");
  }

  /** `get_image_sequence` after the listing: image collections first, then loose image and video files. */
  function ImageSequence(directory: string, collections: seq<string>, remainders: seq<string>): (r: seq<Entry>)
    ensures forall e :: e in r && e.Sequence? ==> exists c :: c in collections && CollectionEntry(directory, c) == Some(e)
    ensures forall e :: e in r && e.Loose? ==> IsImage(e.path) || IsVideo(e.path)
    ensures forall e :: e in r && e.Loose? ==> exists f :: f in remainders && e.path == directory + "/" + f
    ensures forall c :: c in collections && CollectionEntry(directory, c).Some? ==> CollectionEntry(directory, c).value in r
    ensures forall f :: f in remainders && (IsImage(directory + "/" + f) || IsVideo(directory + "/" + f)) ==>
      Loose(directory + "/" + f) in r
  {
    SequenceEntries(directory, collections) + LooseEntries(directory, remainders)
  }

  function SequenceEntries(directory: string, collections: seq<string>): (r: seq<Entry>)
    ensures forall e :: e in r ==> e.Sequence? && exists c :: c in collections && CollectionEntry(directory, c) == Some(e)
    ensures forall c :: c in collections && CollectionEntry(directory, c).Some? ==> CollectionEntry(directory, c).value in r
  {
    if |collections| == 0 then []
    else
      var rest := SequenceEntries(directory, collections[1..]);
      match CollectionEntry(directory, collections[0])
      case Some(e) => [e] + rest
      case None => rest
  }

  function LooseEntries(directory: string, remainders: seq<string>): (r: seq<Entry>)
    ensures forall e :: e in r ==> e.Loose? && (IsImage(e.path) || IsVideo(e.path))
    ensures forall e :: e in r ==> exists f :: f in remainders && e.path == directory + "/" + f
    ensures forall f :: f in remainders && (IsImage(directory + "/" + f) || IsVideo(directory + "/" + f)) ==>
      Loose(directory + "/" + f) in r
  {
    if |remainders| == 0 then []
    else
      var path := directory + "/" + remainders[0];
      var rest := LooseEntries(directory, remainders[1..]);
      if IsImage(path) || IsVideo(path) then [Loose(path)] + rest else rest
  }

  /** What a dropped path is on disk. */
  datatype Kind = RegularFile | Directory | Absent

  /** A drop result: (source, proxy, is image sequence). */
  type Dropped = (string, string, bool)

  /**
   * `get_dropped_files_with_proxy_path`: a file yields itself unless its proxy
   * exists; a directory yields its sequences and loose files, skipping those
   * whose proxy exists.
   */
  function DroppedFiles(kind: Kind, path: string, root: string, group: string, category: string,
                        isFile: string -> bool, collections: seq<string>, remainders: seq<string>): (r: seq<Dropped>)
    ensures kind == Absent ==> r == []
    ensures kind == RegularFile ==> |r| <= 1
    ensures kind == RegularFile && |r| == 1 ==>
      (ProxyPath(path, root, group, category, false, isFile).Some? &&
       r[0] == (path, ProxyPath(path, root, group, category, false, isFile).value, false))
    ensures kind == RegularFile ==> (|r| == 0 <==> ProxyPath(path, root, group, category, false, isFile).None?)
    ensures kind == Directory ==> |r| <= |ImageSequence(path, collections, remainders)|
    ensures kind == Directory ==> forall c :: c in collections ==>
      var e := CollectionEntry(path, c);
      e.Some? && ProxyPath(e.value.head, root, group, category, true, isFile).Some? ==>
        (e.value.head + " " + e.value.range, ProxyPath(e.value.head, root, group, category, true, isFile).value, true) in r
    ensures kind == Directory ==> forall f :: f in remainders ==>
      var q := path + "/" + f;
      (IsImage(q) || IsVideo(q)) && ProxyPath(q, root, group, category, false, isFile).Some? ==>
        (q, ProxyPath(q, root, group, category, false, isFile).value, false) in r
    ensures kind == Directory ==> forall d :: d in r && d.2 ==>
      exists c :: c in collections && CollectionEntry(path, c).Some? &&
        d.0 == CollectionEntry(path, c).value.head + " " + CollectionEntry(path, c).value.range &&
        Some(d.1) == ProxyPath(CollectionEntry(path, c).value.head, root, group, category, true, isFile)
    ensures kind == Directory ==> forall d :: d in r && !d.2 ==>
      exists f :: f in remainders && d.0 == path + "/" + f &&
        Some(d.1) == ProxyPath(d.0, root, group, category, false, isFile)
  {
    match kind
    case Absent => []
    case RegularFile =>
      (match ProxyPath(path, root, group, category, false, isFile)
       case Some(p) => [(path, p, false)]
       case None => [])
    case Directory =>
      DirectoryDropsComplete(path, root, group, category, isFile, collections, remainders);
      DirectoryDropsSound(path, root, group, category, isFile, collections, remainders);
      ScanEntries(ImageSequence(path, collections, remainders), root, group, category, isFile)
  }

  /** Every collection and every image or video remainder without a proxy is dropped. */
  lemma DirectoryDropsComplete(path: string, root: string, group: string, category: string, isFile: string -> bool,
                               collections: seq<string>, remainders: seq<string>)
    ensures var r := ScanEntries(ImageSequence(path, collections, remainders), root, group, category, isFile);
      forall c :: c in collections ==>
        var e := CollectionEntry(path, c);
        e.Some? && ProxyPath(e.value.head, root, group, category, true, isFile).Some? ==>
          (e.value.head + " " + e.value.range, ProxyPath(e.value.head, root, group, category, true, isFile).value, true) in r
    ensures var r := ScanEntries(ImageSequence(path, collections, remainders), root, group, category, isFile);
      forall f :: f in remainders ==>
        var q := path + "/" + f;
        (IsImage(q) || IsVideo(q)) && ProxyPath(q, root, group, category, false, isFile).Some? ==>
          (q, ProxyPath(q, root, group, category, false, isFile).value, false) in r
  {
    var entries := ImageSequence(path, collections, remainders);
    ScanEntriesComplete(entries, root, group, category, isFile);
    forall c | c in collections && CollectionEntry(path, c).Some? ensures CollectionEntry(path, c).value in entries {
    }
    forall f | f in remainders && (IsImage(path + "/" + f) || IsVideo(path + "/" + f))
      ensures Loose(path + "/" + f) in entries
    {
    }
  }

  /** Every drop result comes from a collection or from a remainder. */
  lemma DirectoryDropsSound(path: string, root: string, group: string, category: string, isFile: string -> bool,
                            collections: seq<string>, remainders: seq<string>)
    ensures var r := ScanEntries(ImageSequence(path, collections, remainders), root, group, category, isFile);
      forall d :: d in r && d.2 ==>
        exists c :: c in collections && CollectionEntry(path, c).Some? &&
          d.0 == CollectionEntry(path, c).value.head + " " + CollectionEntry(path, c).value.range &&
          Some(d.1) == ProxyPath(CollectionEntry(path, c).value.head, root, group, category, true, isFile)
    ensures var r := ScanEntries(ImageSequence(path, collections, remainders), root, group, category, isFile);
      forall d :: d in r && !d.2 ==>
        exists f :: f in remainders && d.0 == path + "/" + f &&
          Some(d.1) == ProxyPath(d.0, root, group, category, false, isFile)
  {
  }

  /** The directory loop: each entry becomes a drop result unless its proxy already exists. */
  function ScanEntries(entries: seq<Entry>, root: string, group: string, category: string,
                       isFile: string -> bool): (r: seq<Dropped>)
    ensures |r| <= |entries|
    ensures forall d :: d in r && d.2 ==>
      (exists e :: e in entries && e.Sequence? &&
         d.0 == e.head + " " + e.range && Some(d.1) == ProxyPath(e.head, root, group, category, true, isFile))
    ensures forall d :: d in r && !d.2 ==>
      (Loose(d.0) in entries && Some(d.1) == ProxyPath(d.0, root, group, category, false, isFile))
  {
    if |entries| == 0 then []
    else
      var rest := ScanEntries(entries[1..], root, group, category, isFile);
      match entries[0]
      case Sequence(head, range) =>
        (match ProxyPath(head, root, group, category, true, isFile)
         case Some(p) => [(head + " " + range, p, true)] + rest
         case None => rest)
      case Loose(f) =>
        (match ProxyPath(f, root, group, category, false, isFile)
         case Some(p) => [(f, p, false)] + rest
         case None => rest)
  }

  /** Every entry whose proxy does not exist yet gives its drop result: the loop skips nothing else. */
  lemma ScanEntriesComplete(entries: seq<Entry>, root: string, group: string, category: string, isFile: string -> bool)
    ensures var r := ScanEntries(entries, root, group, category, isFile);
      forall e :: e in entries && e.Sequence? && ProxyPath(e.head, root, group, category, true, isFile).Some? ==>
        (e.head + " " + e.range, ProxyPath(e.head, root, group, category, true, isFile).value, true) in r
    ensures var r := ScanEntries(entries, root, group, category, isFile);
      forall e :: e in entries && e.Loose? && ProxyPath(e.path, root, group, category, false, isFile).Some? ==>
        (e.path, ProxyPath(e.path, root, group, category, false, isFile).value, false) in r
  {
    forall e | e in entries && e.Sequence? && ProxyPath(e.head, root, group, category, true, isFile).Some?
      ensures (e.head + " " + e.range, ProxyPath(e.head, root, group, category, true, isFile).value, true)
              in ScanEntries(entries, root, group, category, isFile)
    {
      ScanEntriesKeeps(entries, e, root, group, category, isFile);
    }
    forall e | e in entries && e.Loose? && ProxyPath(e.path, root, group, category, false, isFile).Some?
      ensures (e.path, ProxyPath(e.path, root, group, category, false, isFile).value, false)
              in ScanEntries(entries, root, group, category, isFile)
    {
      ScanEntriesKeeps(entries, e, root, group, category, isFile);
    }
  }

  /** The drop result of one entry whose proxy does not exist yet, by induction on the entries before it. */
  lemma {:induction false} ScanEntriesKeeps(entries: seq<Entry>, e: Entry, root: string, group: string, category: string,
                                            isFile: string -> bool)
    requires e in entries
    ensures e.Sequence? && ProxyPath(e.head, root, group, category, true, isFile).Some? ==>
      (e.head + " " + e.range, ProxyPath(e.head, root, group, category, true, isFile).value, true)
        in ScanEntries(entries, root, group, category, isFile)
    ensures e.Loose? && ProxyPath(e.path, root, group, category, false, isFile).Some? ==>
      (e.path, ProxyPath(e.path, root, group, category, false, isFile).value, false)
        in ScanEntries(entries, root, group, category, isFile)
  {
    var r := ScanEntries(entries, root, group, category, isFile);
    var rest := ScanEntries(entries[1..], root, group, category, isFile);
    assert r == rest || r == [r[0]] + rest;
    if e != entries[0] {
      assert e in entries[1..];
      ScanEntriesKeeps(entries[1..], e, root, group, category, isFile);
      assert forall x :: x in rest ==> x in r;
    }
  }

  /** Text `\d{1,9}` with ASCII digits. */
  predicate FrameNumber(t: string) {
    1 <= |t| <= 9 && AllDigits(t)
  }

  /** `\d{1,9}-\d{1,9}$` from the start of `t`: `$` also accepts a final newline. */
  predicate FrameRange(t: string) {
    (exists i :: 0 <= i < |t| && t[i] == '-' && FrameNumber(t[..i]) && FrameNumber(t[i + 1..]))
    || (|t| >= 1 && t[|t| - 1] == '\n'
        && exists i :: 0 <= i < |t| - 1 && t[i] == '-' && FrameNumber(t[..i]) && FrameNumber(t[i + 1..|t| - 1]))
  }

  /**
   * `get_source_file_path` as written: `re.match` anchors the pattern at the
   * first character, so only a path that is nothing but ` start-end` matches,
   * and then the result is the directory of the empty text before the first
   * space.
   */
  function SourceFilePathAsWritten(p: string): (r: string)
    ensures |p| == 0 || p[0] != ' ' ==> r == p
  {
    if |p| >= 1 && p[0] == ' ' && FrameRange(p[1..]) then Dirname(Split(p, " ")[0])
    else p
  }

  /** The sequence text of a shot plate comes back unchanged. */
  lemma SourceFilePathAsWrittenExample()
    ensures SourceFilePathAsWritten("/shots/plate.exr 1001-1100") == "/shots/plate.exr 1001-1100"
  {
    var p := "/shots/plate.exr 1001-1100";
    assert p[0] == '/';
  }

  /** Every `path start-end` text whose path does not begin with a space comes back unchanged, where its directory was meant. */
  lemma SourceFilePathAsWrittenKeepsSequence(base: string, first: string, last: string)
    requires |base| > 0 && base[0] != ' ' && FrameNumber(first) && FrameNumber(last)
    ensures SourceFilePathAsWritten(base + " " + first + "-" + last) == base + " " + first + "-" + last
    ensures SourceFilePath(base + " " + first + "-" + last) == Dirname(base)
  {
    var p := base + " " + first + "-" + last;
    assert p[0] == base[0];
    SourceFilePathOfSequence(base, first, last);
  }

  /** When the anchored pattern does match, the result is the empty string. */
  lemma SourceFilePathAsWrittenEmpty(p: string)
    requires |p| >= 1 && p[0] == ' ' && FrameRange(p[1..])
    ensures SourceFilePathAsWritten(p) == ""
  {
    var parts := Split(p, " ");
    assert At(p, " ", 0);
    assert parts[0] == "";
  }

  /** A frame range holds digits, a dash and at most a final newline: never a space. */
  lemma FrameRangeNoSpace(t: string)
    requires FrameRange(t)
    ensures ' ' !in t
  {
    forall k | 0 <= k < |t| ensures t[k] != ' ' {
      if exists i :: 0 <= i < |t| && t[i] == '-' && FrameNumber(t[..i]) && FrameNumber(t[i + 1..]) {
        var i :| 0 <= i < |t| && t[i] == '-' && FrameNumber(t[..i]) && FrameNumber(t[i + 1..]);
        if k < i { assert t[k] == t[..i][k]; } else if k > i { assert t[k] == t[i + 1..][k - i - 1]; }
      } else {
        var i :| 0 <= i < |t| - 1 && t[i] == '-' && FrameNumber(t[..i]) && FrameNumber(t[i + 1..|t| - 1]);
        if k < i { assert t[k] == t[..i][k]; }
        else if i < k < |t| - 1 { assert t[k] == t[i + 1..|t| - 1][k - i - 1]; }
      }
    }
  }

  /** `re.search` of ` \d{1,9}-\d{1,9}$`: some space is followed by a frame range that runs to the end. */
  predicate SearchMatches(p: string) {
    exists i :: 0 <= i < |p| && p[i] == ' ' && FrameRange(p[i + 1..])
  }

  /** The search succeeds exactly when the text after the last space is a frame range. */
  lemma SearchMatchesIff(p: string)
    ensures SearchMatches(p) <==> EndsWithFrameRange(p)
  {
    if SearchMatches(p) {
      var i :| 0 <= i < |p| && p[i] == ' ' && FrameRange(p[i + 1..]);
      SearchMatchAt(p, i);
    }
    if EndsWithFrameRange(p) {
      RangeAfterLastSpace(p);
    }
  }

  lemma SearchMatchAt(p: string, i: int)
    requires 0 <= i < |p| && p[i] == ' ' && FrameRange(p[i + 1..])
    ensures EndsWithFrameRange(p)
  {
    FrameRangeNoSpace(p[i + 1..]);
    assert p == p[..i] + [' '] + p[i + 1..];
    RSplitOnceLast(p[..i], ' ', p[i + 1..]);
  }

  lemma RangeAfterLastSpace(p: string)
    requires EndsWithFrameRange(p)
    ensures SearchMatches(p)
  {
    var parts := RSplitOnce(p, ' ');
    var i := |parts[0]|;
    assert p == parts[0] + [' '] + parts[1];
    assert p[i] == ' ' && p[i + 1..] == parts[1];
  }

  /** Splitting on spaces a text whose first space follows `a` gives `a` first. */
  lemma FirstSpaceSplit(a: string, rest: string)
    requires ' ' !in a
    ensures Split(a + " " + rest, " ")[0] == a
  {
    var p := a + " " + rest;
    assert At(p, " ", |a|) by { assert p[|a|..|a| + 1] == " "; }
    forall j | 0 <= j < |a| ensures !At(p, " ", j) {
      assert p[j..j + 1][0] == a[j];
    }
    assert IndexOf(p, " ") == Some(|a|);
    assert p[..|a|] == a;
  }

  /**
   * `get_source_file_path` with `re.search` in place of `re.match`: the
   * pattern may match anywhere, but `rsplit(' ')[0]` still keeps only the
   * text before the first space.
   */
  function SourceFilePathSearched(p: string): (r: string)
    ensures !EndsWithFrameRange(p) ==> r == p
    ensures EndsWithFrameRange(p) ==> r == Dirname(Split(p, " ")[0])
  {
    SearchMatchesIff(p);
    if SearchMatches(p) then Dirname(Split(p, " ")[0]) else p
  }

  /** For a sequence text whose path holds no space, the search gives the path's directory, as documented. */
  lemma SearchedOfSequence(base: string, first: string, last: string)
    requires ' ' !in base && FrameNumber(first) && FrameNumber(last)
    ensures SourceFilePathSearched(base + " " + first + "-" + last) == Dirname(base)
    ensures SourceFilePathSearched(base + " " + first + "-" + last) == SourceFilePath(base + " " + first + "-" + last)
  {
    var p := base + " " + first + "-" + last;
    SpacedRange(base, first, last);
    FrameRangeOfNumbers(first, last);
    RSplitOnceLast(base, ' ', first + "-" + last);
    assert p == base + [' '] + (first + "-" + last);
    FirstSpaceSplit(base, first + "-" + last);
    SourceFilePathOfSequence(base, first, last);
  }

  /** A sequence text whose path holds a space is cut at the first space, where the last was meant. */
  lemma SearchedCutsAtFirstSpace(a: string, b: string, range: string)
    requires ' ' !in a && ' ' !in range && FrameRange(range)
    ensures SourceFilePathSearched(a + " " + b + " " + range) == Dirname(a)
    ensures SourceFilePath(a + " " + b + " " + range) == Dirname(a + " " + b)
  {
    SourceFilePathOfRange(a + " " + b, range);
    SearchedOfSpacedPath(a, b, range);
  }

  lemma SearchedOfSpacedPath(a: string, b: string, range: string)
    requires ' ' !in a && ' ' !in range && FrameRange(range)
    ensures SourceFilePathSearched(a + " " + b + " " + range) == Dirname(a)
  {
    var p := a + " " + b + " " + range;
    EndsWithRange(a + " " + b, range);
    assert p[..|a|] == a && p[|a|] == ' ';
    SearchedFirstPart(a, p);
  }

  lemma EndsWithRange(base: string, range: string)
    requires ' ' !in range && FrameRange(range)
    ensures EndsWithFrameRange(base + " " + range)
  {
    assert base + " " + range == base + [' '] + range;
    RSplitOnceLast(base, ' ', range);
  }

  lemma SearchedFirstPart(a: string, p: string)
    requires ' ' !in a && |p| > |a| && p[..|a|] == a && p[|a|] == ' '
    requires EndsWithFrameRange(p)
    ensures SourceFilePathSearched(p) == Dirname(a)
  {
    assert p == a + " " + p[|a| + 1..];
    FirstSpaceSplit(a, p[|a| + 1..]);
  }

  /** `/shots/fire plate/a.exr 1-2` gives `/shots` where `/shots/fire plate` was meant. */
  lemma SearchedCutsSpacedPath()
    ensures SourceFilePathSearched("/shots/fire plate/a.exr 1-2") == "/shots"
    ensures SourceFilePath("/shots/fire plate/a.exr 1-2") == "/shots/fire plate"
  {
    SpacedPathSample();
    SearchedCutsAtFirstSpace("/shots/fire", "plate/a.exr", "1-2");
    DirnameOfShots();
    DirnameOfPlate();
  }

  lemma SpacedPathSample()
    ensures FrameRange("1-2") && ' ' !in "1-2" && ' ' !in "/shots/fire"
    ensures "/shots/fire" + " " + "plate/a.exr" + " " + "1-2" == "/shots/fire plate/a.exr 1-2"
    ensures "/shots/fire" + " " + "plate/a.exr" == "/shots/fire plate"  + "/" + "a.exr"
  {
    assert FrameNumber("1") && FrameNumber("2");
    FrameRangeOfNumbers("1", "2");
    assert "1" + "-" + "2" == "1-2";
  }

  lemma DirnameOfShots()
    ensures Dirname("/shots/fire") == "/shots"
  {
    assert "/shots/fire" == "/shots" + "/" + "fire";
    DirnameOfChild("/shots", "fire");
  }

  lemma DirnameOfPlate()
    ensures Dirname("/shots/fire" + " " + "plate/a.exr") == "/shots/fire plate"
  {
    assert "/shots/fire" + " " + "plate/a.exr" == "/shots/fire plate" + "/" + "a.exr";
    DirnameOfChild("/shots/fire plate", "a.exr");
  }

  /** The sequence text ends with a space and a frame range. */
  predicate EndsWithFrameRange(p: string) {
    var parts := RSplitOnce(p, ' ');
    |parts| == 2 && FrameRange(parts[1])
  }

  /**
   * `get_source_file_path` as documented: a `path start-end` text gives the
   * directory of the path, cut from the range at the last space.
   */
  function SourceFilePath(p: string): (r: string)
    ensures !EndsWithFrameRange(p) ==> r == p
    ensures EndsWithFrameRange(p) ==> r == Dirname(RSplitOnce(p, ' ')[0])
  {
    if EndsWithFrameRange(p) then Dirname(RSplitOnce(p, ' ')[0]) else p
  }

  /** `start-end` written with two runs of one to nine digits is a frame range without spaces. */
  lemma FrameRangeOfNumbers(a: string, b: string)
    requires FrameNumber(a) && FrameNumber(b)
    ensures FrameRange(a + "-" + b) && ' ' !in a + "-" + b
  {
    var range := a + "-" + b;
    assert range[|a|] == '-';
    assert range[..|a|] == a && range[|a| + 1..] == b;
    forall k | 0 <= k < |range| ensures range[k] != ' ' {
      if k < |a| { assert range[k] == a[k]; }
      else if k > |a| { assert range[k] == b[k - |a| - 1]; }
    }
  }

  /** A path followed by a space and a frame range gives the path's directory. */
  lemma SourceFilePathOfRange(base: string, range: string)
    requires FrameRange(range) && ' ' !in range
    ensures SourceFilePath(base + " " + range) == Dirname(base)
  {
    RSplitOnceLast(base, ' ', range);
    assert base + " " + range == base + [' '] + range;
  }

  /** For a sequence text `path start-end`, the documented version returns the path's directory. */
  lemma SourceFilePathOfSequence(base: string, first: string, last: string)
    requires FrameNumber(first) && FrameNumber(last)
    ensures SourceFilePath(base + " " + first + "-" + last) == Dirname(base)
  {
    SpacedRange(base, first, last);
    FrameRangeOfNumbers(first, last);
    SourceFilePathOfRange(base, first + "-" + last);
  }

  /** The text `base start-end` regrouped as the base, a space and the range. */
  lemma SpacedRange(base: string, first: string, last: string)
    ensures base + " " + first + "-" + last == base + " " + (first + "-" + last)
  {
    var range := first + "-" + last;
    assert (base + " " + first + "-" + last)[|base| + 1..] == range;
  }

  /** Splitting `x + sep + y` on an overlap-free `sep` that neither `x` nor `y` holds. */
  lemma SplitTwo(x: string, y: string, sep: string)
    requires |sep| > 0 && OverlapFree(sep) && !Contains(x, sep) && !Contains(y, sep)
    ensures Split(x + sep + y, sep) == [x, y]
  {
    var s := x + sep + y;
    assert At(s, sep, |x|) by {
      assert s[|x|..|x| + |sep|] == sep;
    }
    forall j | 0 <= j < |x| ensures !At(s, sep, j) {
      {
        if j + |sep| <= |x| {
          assert s[j..j + |sep|] == x[j..j + |sep|];
          assert !At(x, sep, j);
        } else {
          var d := |x| - j;
          assert s[j..j + |sep|][d..] == s[|x|..j + |sep|] == sep[..|sep| - d];
          assert sep[d..] != sep[..|sep| - d];
        }
      }
    }
    assert IndexOf(s, sep) == Some(|x|);
    assert s[|x| + |sep|..] == y;
    assert Split(y, sep) == [y];
  }
}
