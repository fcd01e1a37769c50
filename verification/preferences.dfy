/**
 * The `[SETTINGS]` section of the preferences file and the typed attributes
 * derived from it.  configparser lower-cases option names when they are set
 * and looked up; values are kept as text and four of them are read back with
 * `int()`.
 */
module Preferences {
  import opened Wrappers
  import opened Strings
  import opened Numerals
  import opened Dicts

  type Section = Dict<string, string>

  /** The attributes `_update_attributes` derives from the section. */
  datatype Settings = Settings(proxy: Option<string>, dataFile: Option<string>,
                               threadCount: int, resWidth: int, resHeight: int, thumbnail: int)

  /** The preferences object: the parsed section and the attributes read from it. */
  datatype Prefs = Prefs(section: Section, settings: Settings)

  /** What `update` leaves behind: the object afterwards, and the exception it raised, if any. */
  datatype Outcome = Outcome(prefs: Prefs, raised: Option<Error>)

  /** What the preferences file holds: nothing yet, or a file with or without a `[SETTINGS]` section. */
  datatype IniFile = Missing | Present(settings: Option<Section>)

  /** `~/Documents/ulaavi` with backslashes turned into slashes. */
  function RootPath(home: string): (r: string)
    ensures '\\' !in r
    ensures r == SubstChar(home, '\\', '/') + "/Documents/ulaavi"
    ensures EndsWith(r, "/Documents/ulaavi")
  {
    var p := home + "/Documents/ulaavi";
    ReplaceCharRemoves(p, '\\', '/');
    ReplaceIsSubstChar(p, '\\', '/');
    var r := Replace(p, "\\", "/");
    assert r == SubstChar(home, '\\', '/') + "/Documents/ulaavi" by {
      var tail := "/Documents/ulaavi";
      forall k | 0 <= k < |r| ensures r[k] == (SubstChar(home, '\\', '/') + tail)[k] {
        if k >= |home| { assert p[k] == tail[k - |home|]; }
      }
    }
    assert r[|r| - 17..] == "/Documents/ulaavi";
    r
  }

  /** A home directory without backslashes is used verbatim. */
  lemma RootPathOfPosixHome(home: string)
    requires '\\' !in home
    ensures RootPath(home) == home + "/Documents/ulaavi"
  {
  }

  /** `default_values()`: the six options written when there is no preferences file. */
  function DefaultValues(root: string): (r: Section)
    ensures Valid(r)
  {
    [("proxy", root + "/proxy"), ("data", root + "/data.json"), ("thread_count", "4"),
     ("res_width", "520"), ("res_height", "300"), ("thumbnail", "1")]
  }

  /** `int(section.get(key))`: TypeError for a missing option, ValueError for text that is not an integer. */
  function IntOption(section: Section, key: string): (r: Result<int>)
    ensures r.Ok? <==> Get(section, key).Some? && ParseInt(Get(section, key).value).Some?
    ensures r.Ok? ==> ParseInt(Get(section, key).value) == Some(r.value)
    ensures Get(section, key).None? ==> r == Err(TypeError(key))
  {
    match Get(section, key)
    case None => Err(TypeError(key))
    case Some(text) =>
      match ParseInt(text)
      case None => Err(ValueError(text))
      case Some(i) => Ok(i)
  }

  /** `_update_attributes` after the section has been read. */
  function Attributes(section: Section): (r: Result<Settings>)
    ensures r.Ok? <==> IntOption(section, "thread_count").Ok? && IntOption(section, "res_width").Ok?
                       && IntOption(section, "res_height").Ok? && IntOption(section, "thumbnail").Ok?
    ensures r.Ok? ==> r.value.proxy == Get(section, "proxy") && r.value.dataFile == Get(section, "data")
    ensures r.Ok? ==> Some(r.value.threadCount) == ParseInt(Get(section, "thread_count").value)
    ensures r.Ok? ==> Some(r.value.resWidth) == ParseInt(Get(section, "res_width").value)
    ensures r.Ok? ==> Some(r.value.resHeight) == ParseInt(Get(section, "res_height").value)
    ensures r.Ok? ==> Some(r.value.thumbnail) == ParseInt(Get(section, "thumbnail").value)
  {
    var threads :- IntOption(section, "thread_count");
    var width :- IntOption(section, "res_width");
    var height :- IntOption(section, "res_height");
    var thumbnail :- IntOption(section, "thumbnail");
    Ok(Settings(Get(section, "proxy"), Get(section, "data"), threads, width, height, thumbnail))
  }

  /** The defaults read back as the documented settings. */
  lemma DefaultAttributes(root: string)
    ensures Attributes(DefaultValues(root))
         == Ok(Settings(Some(root + "/proxy"), Some(root + "/data.json"), 4, 520, 300, 1))
  {
    var d := DefaultValues(root);
    GetAt(d, 0);
    GetAt(d, 1);
    GetAt(d, 2);
    GetAt(d, 3);
    GetAt(d, 4);
    GetAt(d, 5);
    assert IntToString(4) == "4";
    ParseIntToString(4);
    assert IntToString(520) == "520";
    ParseIntToString(520);
    assert IntToString(300) == "300";
    ParseIntToString(300);
    assert IntToString(1) == "1";
    ParseIntToString(1);
  }

  /** `Preferences()`: a missing file is first written with the defaults, then the section is read. */
  function Load(home: string, file: IniFile): (r: Result<Prefs>)
    ensures file.Missing? ==> r.Ok? && r.value.section == DefaultValues(RootPath(home))
    ensures file == Present(None) ==> r == Err(KeyError("SETTINGS"))
    ensures r.Ok? ==> Attributes(r.value.section) == Ok(r.value.settings)
  {
    match file
    case Missing =>
      var section := DefaultValues(RootPath(home));
      DefaultAttributes(RootPath(home));
      Ok(Prefs(section, Attributes(section).value))
    case Present(None) => Err(KeyError("SETTINGS"))
    case Present(Some(section)) =>
      var settings :- Attributes(section);
      Ok(Prefs(section, settings))
  }

  /** The value the last supplied pair gives option `k`, option names lower-cased. */
  function LastSupplied(data: Section, k: string): Option<string> {
    if |data| == 0 then None
    else if Lower(data[|data| - 1].0) == k then Some(data[|data| - 1].1)
    else LastSupplied(data[..|data| - 1], k)
  }

  /** `config['SETTINGS'][key] = value` for every supplied pair, in order. */
  function Merge(section: Section, data: Section): (r: Section)
    ensures Valid(section) ==> Valid(r)
    ensures forall k :: Get(r, k) == match LastSupplied(data, k) case Some(v) => Some(v) case None => Get(section, k)
  {
    if |data| == 0 then section
    else
      var last := data[|data| - 1];
      Set(Merge(section, data[..|data| - 1]), Lower(last.0), last.1)
  }

  /**
   * `_update_attributes` on an existing object: the attributes are assigned in
   * source order, so when an `int()` raises, the ones before it hold the new
   * values and the ones after it keep what they had.
   */
  function ReadInto(prev: Settings, section: Section): (r: (Settings, Option<Error>))
    ensures r.0.proxy == Get(section, "proxy") && r.0.dataFile == Get(section, "data")
    ensures r.1.None? <==> Attributes(section).Ok?
    ensures r.1.None? ==> Attributes(section) == Ok(r.0)
    ensures r.1.Some? ==> Attributes(section) == Err(r.1.value)
    ensures IntOption(section, "thread_count").Err? ==>
      r.0.threadCount == prev.threadCount && r.0.resWidth == prev.resWidth
      && r.0.resHeight == prev.resHeight && r.0.thumbnail == prev.thumbnail
    ensures IntOption(section, "thread_count").Ok? ==> r.0.threadCount == IntOption(section, "thread_count").value
    ensures IntOption(section, "thread_count").Ok? && IntOption(section, "res_width").Err? ==>
      r.0.resWidth == prev.resWidth && r.0.resHeight == prev.resHeight && r.0.thumbnail == prev.thumbnail
    ensures IntOption(section, "thread_count").Ok? && IntOption(section, "res_width").Ok?
            && IntOption(section, "res_height").Err? ==>
      r.0.resWidth == IntOption(section, "res_width").value
      && r.0.resHeight == prev.resHeight && r.0.thumbnail == prev.thumbnail
  {
    var s0 := prev.(proxy := Get(section, "proxy"), dataFile := Get(section, "data"));
    match IntOption(section, "thread_count")
    case Err(e) => (s0, Some(e))
    case Ok(threads) =>
      var s1 := s0.(threadCount := threads);
      match IntOption(section, "res_width")
      case Err(e) => (s1, Some(e))
      case Ok(width) =>
        var s2 := s1.(resWidth := width);
        match IntOption(section, "res_height")
        case Err(e) => (s2, Some(e))
        case Ok(height) =>
          var s3 := s2.(resHeight := height);
          match IntOption(section, "thumbnail")
          case Err(e) => (s3, Some(e))
          case Ok(thumbnail) => (s3.(thumbnail := thumbnail), None)
  }

  /**
   * `update(data)`: the supplied options overwrite, the others stay, the
   * merged section is written to the file, and only then are the attributes
   * read again.  A failing `int()` therefore leaves the section written and
   * the attributes before it updated.
   */
  function Update(p: Prefs, data: Section): (r: Outcome)
    ensures r.prefs.section == Merge(p.section, data)
    ensures r.raised.None? <==> Attributes(r.prefs.section).Ok?
    ensures r.raised.None? ==> Attributes(r.prefs.section) == Ok(r.prefs.settings)
    ensures r.raised.Some? ==> Attributes(r.prefs.section) == Err(r.raised.value)
    ensures r.prefs.settings.proxy == Get(r.prefs.section, "proxy")
    ensures r.prefs.settings.dataFile == Get(r.prefs.section, "data")
  {
    var section := Merge(p.section, data);
    var read := ReadInto(p.settings, section);
    Outcome(Prefs(section, read.0), read.1)
  }

  /** Once `update` has raised, the file holds the section it failed on, so every later `Preferences()` raises too. */
  lemma UpdateFailureSticks(p: Prefs, data: Section, home: string)
    requires Update(p, data).raised.Some?
    ensures Load(home, Present(Some(Update(p, data).prefs.section))).Err?
    ensures Load(home, Present(Some(Update(p, data).prefs.section))).error == Update(p, data).raised.value
  {
  }

  /**
   * Clearing the thread-count field sends an empty text: `update` raises
   * ValueError, yet the empty option is in the file and the proxy and data
   * attributes were already re-read.
   */
  lemma UpdateEmptyThreadCount(p: Prefs)
    ensures var r := Update(p, [("thread_count", "")]);
      r.raised == Some(ValueError(""))
      && Get(r.prefs.section, "thread_count") == Some("")
      && r.prefs.settings.threadCount == p.settings.threadCount
      && r.prefs.settings.proxy == Get(p.section, "proxy")
  {
    var data := [("thread_count", "")];
    var section := Merge(p.section, data);
    LowerCaseOptions();
    MergeOne(p.section, "thread_count", "");
    assert ParseInt("") == None;
    assert IntOption(section, "thread_count") == Err(ValueError(""));
    assert Attributes(section) == Err(ValueError(""));
    assert LastSupplied(data, "proxy") == None by {
      assert data[..0] == [];
    }
    assert Get(section, "proxy") == Get(p.section, "proxy");
  }

  /** Setting the thread count to `str(n)` reads back as `n`, whatever else the section holds. */
  lemma UpdateThreadCount(p: Prefs, n: int)
    requires Update(p, [("thread_count", IntToString(n))]).raised.None?
    ensures Update(p, [("thread_count", IntToString(n))]).prefs.settings.threadCount == n
  {
    var r := Update(p, [("thread_count", IntToString(n))]).prefs;
    LowerCaseOptions();
    MergeOne(p.section, "thread_count", IntToString(n));
    ParseIntToString(n);
  }

  /** The option names the attributes are read from are already lower-case. */
  lemma LowerCaseOptions()
    ensures Lower("thread_count") == "thread_count"
  {
    LowerOfLower("thread_count");
  }

  lemma MergeOne(section: Section, key: string, value: string)
    requires Lower(key) == key
    ensures Get(Merge(section, [(key, value)]), key) == Some(value)
  {
    var data := [(key, value)];
    assert data[..0] == [];
  }
}
