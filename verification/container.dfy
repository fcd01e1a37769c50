/**
 * The first-version thumbnail table: which stored files it lists for a
 * category under the type and search filters, which dropped files are new,
 * the cells a drop fills, and the job that turns a source into a GIF preview.
 * The store is the JSON document `read_db` loads: group, then category, then
 * sub-category, then one entry per source holding `{file: value}` pairs.
 */
module Container {
  import opened Wrappers
  import opened Strings
  import opened Numerals
  import opened Seqs
  import opened Paths
  import LegacyStore
  import Commands

  type Json = LegacyStore.Json

  /**
   * A row `query_items_by_filters` yields: the file, its stored value, the
   * sub-category asked for, and the key of the entry holding the file.  The
   * value is kept as stored; the source passes it through `str`.
   */
  datatype Listed = Listed(key: string, value: Json, category: string, dbKey: string)

  /** The extensions the "stock" filter hides and the ones the "mesh" filter shows. */
  const StockHidden: seq<string> := [".nk", ".obj", ".fbx", ".abc"]
  const MeshExtensions: seq<string> := [".obj", ".fbx", ".abc"]

  /** The type filter: "stock", "template", "mesh" and "all"; any other name lets nothing through. */
  predicate TypePasses(dType: string, key: string) {
    var ext := Splitext(key).1;
    if dType == "stock" then ext !in StockHidden
    else if dType == "template" then EndsWith(key, ".nk")
    else if dType == "mesh" then ext in MeshExtensions
    else dType == "all"
  }

  /** The search filter: no search, or the search inside the lower-cased file name. */
  predicate SearchPasses(search: string, key: string) {
    search == "" || Contains(Lower(Basename(key)), search)
  }

  predicate Passes(dType: string, search: string, key: string) {
    TypePasses(dType, key) && SearchPasses(search, key)
  }

  /**
   * Without a search, "stock" and "mesh" split the files between them, apart
   * from the Nuke scripts, which "template" shows.
   */
  lemma TypeFiltersSplit(key: string)
    ensures TypePasses("stock", key) != TypePasses("mesh", key) || Splitext(key).1 == ".nk"
    ensures Splitext(key).1 == ".nk" ==> TypePasses("template", key) && !TypePasses("stock", key) && !TypePasses("mesh", key)
    ensures TypePasses("all", key)
  {
    var (root, ext) := Splitext(key);
    if ext == ".nk" {
      assert key == root + ext;
      assert key[|key| - 3..] == ext;
    }
  }

  /** The rows of one source entry: its files that pass both filters. */
  function QueryEntry(files: seq<(string, Json)>, dbKey: string, current: string, dType: string, search: string): (r: seq<Listed>)
    ensures |r| <= |files|
    ensures forall x :: x in r <==>
      (x.key, x.value) in files && x.category == current && x.dbKey == dbKey && Passes(dType, search, x.key)
    decreases |files|
  {
    if |files| == 0 then []
    else
      var rest := QueryEntry(files[1..], dbKey, current, dType, search);
      assert files == [files[0]] + files[1..];
      if Passes(dType, search, files[0].0) then [Listed(files[0].0, files[0].1, current, dbKey)] + rest else rest
  }

  /**
   * The rows of every source entry in turn.  An entry that is not a mapping
   * has no `items` to iterate; since callers collect every row, that raises
   * from the whole query.
   */
  function QueryEntries(entries: seq<(string, Json)>, current: string, dType: string, search: string): (r: Result<seq<Listed>>)
    ensures r.Ok? <==> forall i :: 0 <= i < |entries| ==> entries[i].1.Object?
    ensures r.Err? ==> r.error == AttributeError("items")
    ensures r.Ok? ==> forall x :: x in r.value <==>
      x.category == current && Passes(dType, search, x.key) &&
      exists i :: 0 <= i < |entries| && entries[i].0 == x.dbKey && entries[i].1.Object? &&
        (x.key, x.value) in entries[i].1.fields
    decreases |entries|
  {
    if |entries| == 0 then Ok([])
    else if !entries[0].1.Object? then Err(AttributeError("items"))
    else
      var first := QueryEntry(entries[0].1.fields, entries[0].0, current, dType, search);
      var rest :- QueryEntries(entries[1..], current, dType, search);
      assert forall i :: 1 <= i < |entries| ==> entries[i] == entries[1..][i - 1];
      Ok(first + rest)
  }

  /**
   * `query_items_by_filters`: the rows of the entries stored under
   * `group`, `top`, `current`.  A missing key raises KeyError, a level that
   * is not a mapping raises on the way down or has no `items`.
   */
  function QueryItems(data: Json, current: string, top: string, group: string, dType: string, search: string): (r: Result<seq<Listed>>)
    ensures LegacyStore.At(data, [group, top, current]).Err? ==> r == LegacyStore.At(data, [group, top, current]).PropagateFailure()
    ensures r.Ok? ==> LegacyStore.At(data, [group, top, current]).Ok?
    ensures r.Ok? ==> var db := LegacyStore.At(data, [group, top, current]).value;
      db.Object? &&
      forall x :: x in r.value <==>
        x.category == current && Passes(dType, search, x.key) &&
        exists i :: 0 <= i < |db.fields| && db.fields[i].0 == x.dbKey && db.fields[i].1.Object? &&
          (x.key, x.value) in db.fields[i].1.fields
  {
    var db :- LegacyStore.At(data, [group, top, current]);
    if !db.Object? then Err(AttributeError("items"))
    else QueryEntries(db.fields, current, dType, search)
  }

  /**
   * The table state the filters and the cell placement read: the category
   * shown, the filters, how many files it holds, its rows and columns, the
   * cell filled last and whether that cell is already taken.
   */
  datatype Table = Table(
    current: string, top: string, group: string, dType: string, search: string,
    totalFile: int, rows: int, cols: int, lastCell: (int, int), positionUpdated: bool)

  /** A new table: the search is lower-cased, nothing is placed yet.  The column count comes from the table width. */
  function NewTable(current: string, top: string, group: string, dType: string, search: string, cols: int): (r: Table)
    ensures r.search == Lower(search) && |r.search| == |search|
    ensures r.totalFile == 0 && r.rows == 0 && r.lastCell == (0, 0) && !r.positionUpdated
    ensures r.current == current && r.top == top && r.group == group && r.dType == dType && r.cols == cols
  {
    Table(current, top, group, dType, Lower(search), 0, 0, cols, (0, 0), false)
  }

  /** The rows the table lists from the store. */
  function Items(t: Table, data: Json): Result<seq<Listed>> {
    QueryItems(data, t.current, t.top, t.group, t.dType, t.search)
  }

  /** A new table lists the same rows whatever the case of the search typed. */
  lemma NewTableIgnoresCase(current: string, top: string, group: string, dType: string, search: string, cols: int, data: Json)
    ensures Items(NewTable(current, top, group, dType, search, cols), data) ==
      Items(NewTable(current, top, group, dType, Lower(search), cols), data)
  {
    LowerOfLower(Lower(search));
  }

  /** `load_user_search` as written: the search is stored as typed. */
  function LoadUserSearch(t: Table, search: string): (r: Table)
    ensures r.search == search
    ensures r == t.(search := r.search)
  {
    t.(search := search)
  }

  /** `load_user_search` as the constructor treats the search: lower-cased. */
  function LoadUserSearchLowered(t: Table, search: string): (r: Table)
    ensures r.search == Lower(search)
    ensures r == t.(search := r.search)
  {
    t.(search := Lower(search))
  }

  predicate HasUpper(s: string) {
    exists i :: 0 <= i < |s| && 'A' <= s[i] <= 'Z'
  }

  /** A search with a capital letter never occurs in a lower-cased name. */
  lemma UpperNeverInLower(name: string, search: string)
    requires HasUpper(search)
    ensures !Contains(Lower(name), search)
  {
    var i :| 0 <= i < |search| && 'A' <= search[i] <= 'Z';
    forall j ensures !At(Lower(name), search, j) {
      if 0 <= j && j + |search| <= |name| {
        assert Lower(name)[j..j + |search|][i] == LowerChar(name[j + i]);
      }
    }
    ContainsIff(Lower(name), search);
  }

  /**
   * As written, a search typed with a capital letter lists nothing: every
   * name is lower-cased before the comparison, the search is not.
   */
  lemma UpperCaseSearchListsNothing(t: Table, search: string, data: Json)
    requires HasUpper(search)
    requires Items(LoadUserSearch(t, search), data).Ok?
    ensures forall x :: x !in Items(LoadUserSearch(t, search), data).value
  {
    var rows := Items(LoadUserSearch(t, search), data).value;
    forall x ensures x !in rows {
      UpperNeverInLower(Basename(x.key), search);
    }
  }

  /** Typing a stored file's own name, in any case, passes the lower-cased search. */
  lemma LoweredSearchFindsName(t: Table, search: string, key: string)
    requires Lower(search) == Lower(Basename(key))
    ensures SearchPasses(LoadUserSearchLowered(t, search).search, key)
  {
    var name := Lower(Basename(key));
    assert At(name, name, 0);
    ContainsIff(name, name);
  }

  /** The same input as written: a name with a capital letter is not found by its own spelling. */
  lemma AsWrittenMissesName(t: Table, key: string)
    requires HasUpper(Basename(key))
    ensures !SearchPasses(LoadUserSearch(t, Basename(key)).search, key)
  {
    UpperNeverInLower(Basename(key), Basename(key));
  }

  /**
   * `validate_items_dropped_into_table`: the dropped files, without
   * repeats, that the table does not already list under its filters.
   */
  function ValidateDropped(t: Table, data: Json, dropped: seq<string>): (r: Result<set<string>>)
    ensures r.Err? <==> Items(t, data).Err?
    ensures r.Ok? ==> forall f :: f in r.value <==> f in dropped && forall x :: x in Items(t, data).value ==> x.key != f
  {
    var rows :- Items(t, data);
    Ok((set f | f in dropped) - (set x | x in rows :: x.key))
  }

  /** Some source entry of the category holds the file `f`. */
  ghost predicate Stored(entries: seq<(string, Json)>, f: string) {
    exists i, v :: 0 <= i < |entries| && entries[i].1.Object? && (f, v) in entries[i].1.fields
  }

  /** A dropped file the category already lists is dropped from the result. */
  lemma ValidateDroppedSkipsListed(t: Table, data: Json, dropped: seq<string>, f: string)
    requires ValidateDropped(t, data, dropped).Ok?
    requires Stored(LegacyStore.At(data, [t.group, t.top, t.current]).value.fields, f)
    requires Passes(t.dType, t.search, f)
    ensures f !in ValidateDropped(t, data, dropped).value
  {
    var db := LegacyStore.At(data, [t.group, t.top, t.current]).value;
    var i, v :| 0 <= i < |db.fields| && db.fields[i].1.Object? && (f, v) in db.fields[i].1.fields;
    assert Listed(f, v, t.current, db.fields[i].0) in Items(t, data).value;
  }

  /**
   * A dropped file is kept unless the category lists it: some entry holds
   * it and the table's filters let it through.
   */
  lemma ValidateDroppedKeepsNew(t: Table, data: Json, dropped: seq<string>, f: string)
    requires ValidateDropped(t, data, dropped).Ok? && f in dropped
    requires !Passes(t.dType, t.search, f) || !Stored(LegacyStore.At(data, [t.group, t.top, t.current]).value.fields, f)
    ensures f in ValidateDropped(t, data, dropped).value
  {
    var db := LegacyStore.At(data, [t.group, t.top, t.current]).value;
    forall x | x in Items(t, data).value ensures x.key != f {
      assert Passes(t.dType, t.search, x.key);
    }
  }

  /** One row of cells, `(i, 0)` to `(i, cols - 1)`. */
  function Row(i: int, cols: int): seq<(int, int)> {
    seq(if cols > 0 then cols else 0, j => (i, j))
  }

  /** `[(i, j) for i in range(rows) for j in range(cols)]`. */
  function Cells(rows: int, cols: int): seq<(int, int)>
    decreases if rows > 0 then rows else 0
  {
    if rows <= 0 then [] else Cells(rows - 1, cols) + Row(rows - 1, cols)
  }

  /** The cells come in row-major order: the `k`-th is `(k div cols, k mod cols)`. */
  lemma {:induction false} CellsRowMajor(rows: int, cols: int)
    ensures |Cells(rows, cols)| == if rows > 0 && cols > 0 then rows * cols else 0
    ensures forall k :: 0 <= k < |Cells(rows, cols)| ==> Cells(rows, cols)[k] == (k / cols, k % cols)
    decreases if rows > 0 then rows else 0
  {
    if rows > 0 {
      CellsRowMajor(rows - 1, cols);
      var init := Cells(rows - 1, cols);
      var cells := Cells(rows, cols);
      if cols > 0 {
        assert |init| == (rows - 1) * cols;
        assert rows * cols == (rows - 1) * cols + cols;
        forall k | 0 <= k < |cells| ensures cells[k] == (k / cols, k % cols) {
          if k >= |init| {
            var j := k - |init|;
            assert cells[k] == (rows - 1, j);
            DivModUnique(k, cols, rows - 1, j);
          }
        }
      }
    }
  }

  /** The cell `(i, j)` of the grid is the one at index `i * cols + j`. */
  lemma CellAt(rows: int, cols: int, i: int, j: int)
    requires 0 <= i < rows && 0 <= j < cols
    ensures i * cols + j < |Cells(rows, cols)| && Cells(rows, cols)[i * cols + j] == (i, j)
  {
    CellsRowMajor(rows, cols);
    var k := i * cols + j;
    MulOrder(i + 1, rows, cols);
    assert (i + 1) * cols == k + (cols - j);
    DivModUnique(k, cols, i, j);
  }

  /** The cell `(i, j)` of the grid sits at index `i * cols + j`, and nowhere before. */
  lemma CellIndex(rows: int, cols: int, i: int, j: int)
    requires 0 <= i < rows && 0 <= j < cols
    ensures (i, j) in Cells(rows, cols)
    ensures FirstIndex(Cells(rows, cols), (i, j)) == i * cols + j
  {
    CellAt(rows, cols, i, j);
    var f := FirstIndex(Cells(rows, cols), (i, j));
    CellOfIndex(rows, cols, f);
    assert f == (f / cols) * cols + f % cols;
  }

  lemma CellOfIndex(rows: int, cols: int, k: int)
    requires 0 <= k < |Cells(rows, cols)|
    ensures cols > 0 && Cells(rows, cols)[k] == (k / cols, k % cols)
  {
    CellsRowMajor(rows, cols);
  }

  /**
   * `calc_row_col_pos`: the drop is added to the file count first; then the
   * rows are the count over the columns rounded up, and the positions are
   * every cell in row-major order.  No columns divides by zero.
   */
  function CalcRowColPos(t: Table, files: seq<string>): (r: (Table, Result<seq<(int, int)>>))
    ensures r.0.totalFile == t.totalFile + |files|
    ensures r.1.Err? <==> t.cols == 0
    ensures r.1.Err? ==> r.1.error == ZeroDivisionError && r.0 == t.(totalFile := r.0.totalFile)
    ensures r.1.Ok? ==> r.0 == t.(totalFile := r.0.totalFile, rows := r.0.rows) && r.1.value == Cells(r.0.rows, t.cols)
    ensures r.1.Ok? && t.cols > 0 ==> (r.0.rows - 1) * t.cols < r.0.totalFile <= r.0.rows * t.cols
  {
    var total := t.totalFile + |files|;
    if t.cols == 0 then (t.(totalFile := total), Err(ZeroDivisionError))
    else
      var rows := CeilDiv(total, t.cols);
      (t.(totalFile := total, rows := rows), Ok(Cells(rows, t.cols)))
  }

  /** Python's `s[a:b]` for `0 <= a <= b`: the bounds are cut to the length. */
  function Slice<T>(s: seq<T>, a: nat, b: nat): (r: seq<T>)
    requires a <= b
    ensures |r| == (if b <= |s| then b else |s|) - (if a <= |s| then a else |s|)
    ensures forall k :: 0 <= k < |r| ==> r[k] == s[a + k]
  {
    var lo := if a <= |s| then a else |s|;
    var hi := if b <= |s| then b else |s|;
    s[lo..hi]
  }

  /**
   * `cell_row_col_index`: as many positions as files, starting at the
   * last filled cell, or just after it once that cell is taken.  A last
   * cell missing from the positions raises ValueError.
   */
  function CellRowColIndex(t: Table, files: seq<string>, pos: seq<(int, int)>): (r: Result<seq<(int, int)>>)
    ensures r.Err? <==> t.lastCell !in pos
    ensures r.Err? ==> r.error.ValueError?
    ensures r.Ok? ==>
      var start := FirstIndex(pos, t.lastCell) + (if t.positionUpdated then 1 else 0);
      |r.value| == (if start + |files| <= |pos| then |files| else |pos| - start) &&
      forall k :: 0 <= k < |r.value| ==> r.value[k] == pos[start + k]
  {
    if t.lastCell !in pos then Err(ValueError("(" + IntToString(t.lastCell.0) + ", " + IntToString(t.lastCell.1) + ") is not in list"))
    else
      var start := FirstIndex(pos, t.lastCell) + (if t.positionUpdated then 1 else 0);
      Ok(Slice(pos, start, start + |files|))
  }

  /** A run of `n` cells from index `start` of the grid: the next cells in row-major order. */
  lemma CellsFrom(rows: int, cols: int, start: nat, n: nat)
    requires cols > 0 && start + n <= rows * cols
    ensures Slice(Cells(rows, cols), start, start + n) == seq(n, k => ((start + k) / cols, (start + k) % cols))
  {
    CellsRowMajor(rows, cols);
  }

  /** With at least one file dropped, the next free cell is inside the grown grid. */
  lemma NextCellInGrid(t: Table, files: seq<string>)
    requires t.cols > 0 && |files| > 0
    requires 0 <= t.lastCell.0 && 0 <= t.lastCell.1 < t.cols
    requires t.lastCell.0 * t.cols + t.lastCell.1 + (if t.positionUpdated then 1 else 0) == t.totalFile
    ensures t.lastCell.0 < CalcRowColPos(t, files).0.rows
    ensures t.totalFile + |files| <= CalcRowColPos(t, files).0.rows * t.cols
  {
    var rows := CalcRowColPos(t, files).0.rows;
    var i := t.lastCell.0;
    var below := i * t.cols;
    assert below <= t.totalFile;
    assert t.totalFile + |files| <= rows * t.cols;
    MulOrder(rows, i, t.cols);
  }

  /**
   * A drop of `n >= 1` files onto a table whose next free cell has index
   * `totalFile` (the last filled cell, or `(0, 0)` while it is still free)
   * gets exactly `n` cells: the next ones in row-major order.
   */
  lemma DropFillsNextCells(t: Table, files: seq<string>)
    requires t.cols > 0 && |files| > 0
    requires 0 <= t.lastCell.0 && 0 <= t.lastCell.1 < t.cols
    requires t.lastCell.0 * t.cols + t.lastCell.1 + (if t.positionUpdated then 1 else 0) == t.totalFile
    ensures CalcRowColPos(t, files).1.Ok?
    ensures CellRowColIndex(CalcRowColPos(t, files).0, files, CalcRowColPos(t, files).1.value) ==
      Ok(seq(|files|, k => ((t.totalFile + k) / t.cols, (t.totalFile + k) % t.cols)))
  {
    var t1 := CalcRowColPos(t, files).0;
    NextCellInGrid(t, files);
    CellIndex(t1.rows, t.cols, t.lastCell.0, t.lastCell.1);
    CellsFrom(t1.rows, t.cols, t.totalFile, |files|);
  }

  /** The still-image formats whose preview is a PNG when no frame range is given. */
  const StillFormats: seq<string> := [".exr", ".png", ".jpeg", ".jpg", ".tiff", ".tif"]

  /** The size the preview is scaled to fit. */
  const DimensionX := 250
  const DimensionY := 180

  /**
   * A GIF conversion job: the source, the first frame of a sequence when the
   * source names one, the output, the item the finished signal reports,
   * and the ffmpeg executable.
   */
  datatype GifJob = GifJob(input: string, startFrame: Option<string>, output: string, item: string, ffmpeg: string)

  /**
   * `ConvertGif.__init__`: a source of the form `file$$range` gives the file
   * and the range; any other number of `$$` pieces fails to unpack and the
   * whole text is the source.  A still-image source without a frame range
   * writes a PNG next to the requested output instead.
   */
  function NewGifJob(inputFile: string, gifFile: string, frameLength: Option<string>, ffmpeg: string): (r: GifJob)
    ensures r.item == inputFile && r.ffmpeg == ffmpeg
    ensures r.startFrame.Some? <==> |Split(inputFile, "$$")| == 2
    ensures r.startFrame.Some? ==> r.input + "$$" + r.startFrame.value == inputFile && !Contains(r.input, "$$")
    ensures r.startFrame.None? ==> r.input == inputFile
    ensures r.output != gifFile <==>
      Splitext(r.input).1 in StillFormats && (frameLength.None? || IsBlank(frameLength.value)) &&
      Splitext(gifFile).0 + ".png" != gifFile
    ensures r.output != gifFile ==> r.output == Splitext(gifFile).0 + ".png"
  {
    var parts := Split(inputFile, "$$");
    var input := if |parts| == 2 then parts[0] else inputFile;
    var start := if |parts| == 2 then Some(parts[1]) else None;
    var output :=
      if Splitext(input).1 in StillFormats && (frameLength.None? || IsBlank(frameLength.value)) then Splitext(gifFile).0 + ".png"
      else gifFile;
    GifJob(input, start, output, inputFile, ffmpeg)
  }

  /** The text a source sequence is dropped as, `head$$range`, gives back its head and range. */
  lemma GifJobOfSequence(head: string, range: string, gifFile: string, frameLength: Option<string>, ffmpeg: string)
    requires '$' !in head && '$' !in range
    ensures NewGifJob(head + "$$" + range, gifFile, frameLength, ffmpeg).input == head
    ensures NewGifJob(head + "$$" + range, gifFile, frameLength, ffmpeg).startFrame == Some(range)
  {
    forall j ensures !At(range, "$$", j) {
      if 0 <= j && j + 2 <= |range| {
        assert range[j..j + 2][0] == range[j];
      }
    }
    ContainsIff(range, "$$");
    SplitTwo(head, "$$", range);
  }

  /** The ffmpeg arguments for a single source. */
  function GifArgs(ffmpeg: string, input: string, filter: string, output: string): (r: seq<string>)
    ensures |r| == 9 && r[0] == ffmpeg && r[8] == "-hide_banner" && r[7] == output
    ensures r[1] == "-i" && r[2] == input && r[4] == filter
  {
    [ffmpeg, "-i", input, "-vf", filter, "-r", "24", output, "-hide_banner"]
  }

  /** The ffmpeg arguments for a numbered sequence, from its first frame. */
  function GifSequenceArgs(ffmpeg: string, start: string, input: string, filter: string, output: string): (r: seq<string>)
    ensures |r| == 11 && r[0] == ffmpeg && r[10] == "-hide_banner" && r[9] == output
    ensures r[1] == "-start_number" && r[2] == start && r[3] == "-i" && r[4] == input && r[6] == filter
  {
    [ffmpeg, "-start_number", start, "-i", input, "-vf", filter, "-r", "24", output, "-hide_banner"]
  }

  /**
   * The command `run` starts: the sequence form when a non-empty start
   * frame is known, from the part of the range before its first `-`.  The
   * sequence filter carries a trailing space.
   */
  function GifCommand(job: GifJob): (r: seq<string>)
    ensures (job.startFrame.None? || job.startFrame.value == "") <==> |r| == 9
    ensures |r| >= 9 && r[0] == job.ffmpeg && r[|r| - 1] == "-hide_banner" && r[|r| - 2] == job.output
    ensures |r| == 9 ==> r[2] == job.input
    ensures |r| != 9 ==> |r| == 11 && r[4] == job.input && r[2] == Split(job.startFrame.value, "-")[0]
  {
    var filter := Commands.Scale(DimensionX, DimensionY);
    if job.startFrame.None? || job.startFrame.value == "" then GifArgs(job.ffmpeg, job.input, filter, job.output)
    else GifSequenceArgs(job.ffmpeg, Split(job.startFrame.value, "-")[0], job.input, filter + " ", job.output)
  }

  /** What `run` did: the command it started, if any, and whether it signalled completion. */
  datatype GifRun = GifRun(command: Option<seq<string>>, finished: bool)

  /**
   * `ConvertGif.run`: an existing output is removed first, so a conversion
   * always runs unless the removal failed; completion is signalled when the
   * conversion printed anything, or at once when the old output is still
   * there.  Whether the output exists, whether removing it fails and what
   * ffmpeg prints are parameters.
   */
  function RunGif(job: GifJob, outputExists: bool, removeFails: bool, stdout: string): (r: GifRun)
    ensures r.command.Some? <==> !(outputExists && removeFails)
    ensures r.command.Some? ==> r.command.value == GifCommand(job)
    ensures r.finished <==> r.command.None? || stdout != ""
  {
    if outputExists && removeFails then GifRun(None, true)
    else GifRun(Some(GifCommand(job)), stdout != "")
  }

  /** A previous preview never short-cuts the job: once it is removed, the conversion runs again. */
  lemma RunGifNeverSkips(job: GifJob, stdout: string)
    ensures RunGif(job, true, false, stdout) == RunGif(job, false, false, stdout)
    ensures RunGif(job, true, false, stdout).command == Some(GifCommand(job))
  {
  }
}
