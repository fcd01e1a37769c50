/**
 * Where the thumbnail table puts the next thumbnail.  The table keeps its row
 * count, the cell it filled last and its column count; each non-empty source
 * moves one cell to the right, and to the start of a new row once the next
 * column would equal the column count.  The overlay tag list of a selected
 * thumbnail is edited the same way the context menu asks for it.
 */
module ThumbnailGrid {
  import opened Wrappers
  import opened Numerals
  import opened Seqs

  /** The placement state: rows of the table, the cell filled last, and the column count. */
  datatype Grid = Grid(rows: int, lastCell: (int, int), totalColumns: int)

  /** `reset_attributes`: no rows and the first cell, keeping the column count. */
  function Reset(g: Grid): (r: Grid)
    ensures r.rows == 0 && r.lastCell == (0, 0) && r.totalColumns == g.totalColumns
  {
    Grid(0, (0, 0), g.totalColumns)
  }

  /**
   * `calculate_column`: one column fewer than the cells it takes to cover the
   * width, `math.ceil(width / cell_width) - 1`; a zero cell width divides by zero.
   */
  function CalculateColumn(g: Grid, width: int, cellWidth: int): (r: Result<Grid>)
    ensures r.Err? <==> cellWidth == 0
    ensures r.Err? ==> r.error == ZeroDivisionError
    ensures r.Ok? ==> r.value.rows == g.rows && r.value.lastCell == g.lastCell
    ensures r.Ok? && cellWidth > 0 ==>
      r.value.totalColumns * cellWidth < width <= (r.value.totalColumns + 1) * cellWidth
  {
    if cellWidth == 0 then Err(ZeroDivisionError)
    else Ok(g.(totalColumns := CeilDiv(width, cellWidth) - 1))
  }

  /** `_update_cell_positions`: where the thumbnail of one more source goes. */
  function Place(g: Grid, source: string): (r: Grid)
    ensures source == "" ==> r == g
    ensures r.totalColumns == g.totalColumns
    ensures source != "" && g.rows == 0 ==> r.rows == 1 && r.lastCell == g.lastCell
    ensures source != "" && g.rows != 0 ==>
      (r.rows == g.rows + 1 && r.lastCell == (g.lastCell.0 + 1, 0) <==> g.lastCell.1 + 1 == g.totalColumns)
    ensures source != "" && g.rows != 0 && g.lastCell.1 + 1 != g.totalColumns ==>
      r.rows == g.rows && r.lastCell == (g.lastCell.0, g.lastCell.1 + 1)
  {
    if source == "" then g
    else if g.rows == 0 then g.(rows := 1)
    else if g.lastCell.1 + 1 == g.totalColumns then g.(rows := g.rows + 1, lastCell := (g.lastCell.0 + 1, 0))
    else g.(lastCell := (g.lastCell.0, g.lastCell.1 + 1))
  }

  /** The placements of a list of sources, in order. */
  function PlaceAll(g: Grid, sources: seq<string>): (r: Grid)
    ensures r.totalColumns == g.totalColumns
    ensures Filled(sources) == 0 ==> r == g
    decreases |sources|
  {
    if |sources| == 0 then g else Place(PlaceAll(g, sources[..|sources| - 1]), sources[|sources| - 1])
  }

  /** How many of the sources are non-empty, and so take a cell. */
  function Filled(sources: seq<string>): nat
    decreases |sources|
  {
    if |sources| == 0 then 0
    else Filled(sources[..|sources| - 1]) + (if sources[|sources| - 1] == "" then 0 else 1)
  }

  /** The state after `n` cells have been filled from a reset table with `c` columns. */
  function After(n: nat, c: int): Grid
    requires c >= 1
  {
    if n == 0 then Grid(0, (0, 0), c) else Grid((n - 1) / c + 1, ((n - 1) / c, (n - 1) % c), c)
  }

  /** Filling one more cell after `n` is the state after `n + 1`. */
  lemma PlaceAfter(n: nat, c: int, source: string)
    requires c >= 1 && source != ""
    ensures Place(After(n, c), source) == After(n + 1, c)
  {
    if n > 0 {
      var q := (n - 1) / c;
      var r := (n - 1) % c;
      assert n - 1 == q * c + r;
      if r + 1 == c {
        assert n == (q + 1) * c + 0 by {
          assert (q + 1) * c == q * c + c;
        }
        DivModUnique(n, c, q + 1, 0);
        assert After(n + 1, c) == Grid(q + 2, (q + 1, 0), c);
      } else {
        DivModUnique(n, c, q, r + 1);
        assert After(n + 1, c) == Grid(q + 1, (q, r + 1), c);
      }
    }
  }

  /**
   * From a reset table with `c >= 1` columns, after `n >= 1` non-empty
   * sources the last cell is `((n - 1) div c, (n - 1) mod c)` and the table
   * has `(n - 1) div c + 1` rows: thumbnails fill the table row by row.
   */
  lemma {:induction false} PlaceAllRowMajor(g: Grid, sources: seq<string>)
    requires g.totalColumns >= 1
    ensures PlaceAll(Reset(g), sources) == After(Filled(sources), g.totalColumns)
    decreases |sources|
  {
    if |sources| > 0 {
      var init := sources[..|sources| - 1];
      PlaceAllRowMajor(g, init);
      if sources[|sources| - 1] != "" {
        PlaceAfter(Filled(init), g.totalColumns, sources[|sources| - 1]);
      }
    }
  }

  /**
   * The row only wraps when the next column equals the column count exactly:
   * once the last cell is at or past it (the table was narrowed), every
   * further thumbnail goes one column further right on the same row.
   */
  lemma {:induction false} PastLastColumnNeverWraps(g: Grid, sources: seq<string>)
    requires g.rows > 0 && g.lastCell.1 >= g.totalColumns
    ensures PlaceAll(g, sources) == g.(lastCell := (g.lastCell.0, g.lastCell.1 + Filled(sources)))
    decreases |sources|
  {
    if |sources| > 0 {
      PastLastColumnNeverWraps(g, sources[..|sources| - 1]);
    }
  }

  /**
   * `_update_tag_in_overlay_label` on one thumbnail's tag list: `add` appends
   * an absent tag; every other case removes the tag's first occurrence, and
   * `list.remove` raises ValueError when it is not there.
   */
  function OverlayTags(tags: seq<string>, tag: string, action: string): (r: Result<seq<string>>)
    ensures action == "add" && tag !in tags ==> r == Ok(tags + [tag])
    ensures !(action == "add" && tag !in tags) ==> (r.Ok? <==> tag in tags)
    ensures r.Err? ==> r.error.ValueError?
    ensures r.Ok? && !(action == "add" && tag !in tags) ==>
      |r.value| == |tags| - 1 && multiset(r.value) == multiset(tags) - multiset{tag}
  {
    if action == "add" && tag !in tags then Ok(tags + [tag])
    else if tag in tags then Ok(RemoveFirst(tags, tag))
    else Err(ValueError("list.remove(x): x not in list"))
  }

  /** Adding a tag the thumbnail lacks and then removing it gives the original list back. */
  lemma OverlayAddThenRemove(tags: seq<string>, tag: string)
    requires tag !in tags
    ensures OverlayTags(tags, tag, "add").Ok?
    ensures OverlayTags(OverlayTags(tags, tag, "add").value, tag, "remove") == Ok(tags)
  {
    var added := tags + [tag];
    var i := FirstIndex(added, tag);
    assert i == |tags|;
    assert added[..i] == tags && added[i + 1..] == [];
    assert RemoveFirst(added, tag) == tags;
  }

  /** `add` of a tag the thumbnail already carries removes it instead. */
  lemma OverlayAddPresentRemoves(tags: seq<string>, tag: string)
    requires tag in tags
    ensures OverlayTags(tags, tag, "add") == OverlayTags(tags, tag, "remove")
    ensures NoDup(tags) ==> tag !in OverlayTags(tags, tag, "add").value
  {
  }

  /**
   * The selected thumbnails in order: each one's list is edited until one
   * raises; the ones after it are left as they were.
   */
  function OverlayAll(lists: seq<seq<string>>, tag: string, action: string): (r: (seq<seq<string>>, Option<Error>))
    ensures |r.0| == |lists|
    ensures r.1.None? <==> forall i :: 0 <= i < |lists| ==> OverlayTags(lists[i], tag, action).Ok?
    ensures r.1.None? ==> forall i :: 0 <= i < |lists| ==> r.0[i] == OverlayTags(lists[i], tag, action).value
    ensures r.1.Some? ==> r.1.value.ValueError?
    decreases |lists|
  {
    if |lists| == 0 then ([], None)
    else
      match OverlayTags(lists[0], tag, action)
      case Err(e) => (lists, Some(e))
      case Ok(first) =>
        var rest := OverlayAll(lists[1..], tag, action);
        assert forall i :: 1 <= i < |lists| ==> lists[i] == lists[1..][i - 1];
        ([first] + rest.0, rest.1)
  }
}
