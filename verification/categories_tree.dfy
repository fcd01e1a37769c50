/**
 * The category tree of a group.  An item is named by the texts on the way
 * from the top item down to it; its category path joins those texts with
 * `|`, as the store's category keys do.  The tree derives the default name
 * of a new item, refuses to rename or delete the item called `root`, and
 * finds an existing item for a category path.
 */
module CategoriesTree {
  import opened Wrappers
  import opened Strings
  import opened Numerals
  import opened Seqs
  import CategoryPattern

  /** An item of the tree: the texts from the top item down to it. */
  type Chain = seq<string>

  /**
   * `user_data(category, item)`: the texts above the item followed by
   * `category`, joined with `|`; the item's own text is replaced.  No item
   * gives None.
   */
  function UserData(category: string, chain: Chain): (r: Option<string>)
    ensures r.None? <==> chain == []
    ensures |chain| == 1 ==> r == Some(category)
  {
    if chain == [] then None else Some(Join(chain[..|chain| - 1] + [category], "|"))
  }

  /** `item_user_role`: the category path of an item, its own text last. */
  function PathOf(chain: Chain): (r: string)
    requires chain != []
    ensures Some(r) == UserData(chain[|chain| - 1], chain)
  {
    assert chain[..|chain| - 1] + [chain[|chain| - 1]] == chain;
    Join(chain, "|")
  }

  /** Joining one more piece appends the separator and the piece. */
  lemma {:induction false} JoinSnoc(parts: seq<string>, sep: string, last: string)
    requires |parts| >= 1
    ensures Join(parts + [last], sep) == Join(parts, sep) + sep + last
    decreases |parts|
  {
    if |parts| > 1 {
      assert (parts + [last])[1..] == parts[1..] + [last];
      JoinSnoc(parts[1..], sep, last);
    }
  }

  /** The path a child gives `category` extends its parent's path by `|category`. */
  lemma UserDataOfChild(category: string, chain: Chain, child: string)
    requires chain != []
    ensures UserData(category, chain + [child]) == Some(PathOf(chain) + "|" + category)
  {
    assert (chain + [child])[..|chain|] == chain;
    JoinSnoc(chain, "|", category);
  }

  /** When no text holds `|`, splitting a category path on `|` gives the texts back. */
  lemma UserDataSplits(category: string, chain: Chain)
    requires chain != [] && '|' !in category
    requires forall i :: 0 <= i < |chain| ==> '|' !in chain[i]
    ensures Split(UserData(category, chain).value, "|") == chain[..|chain| - 1] + [category]
  {
    var parts := chain[..|chain| - 1] + [category];
    forall i | 0 <= i < |parts| ensures '|' !in parts[i] {
      if i < |chain| - 1 {
        assert parts[i] == chain[i];
      }
    }
    SplitOfJoin(parts, '|');
  }

  // ---------------------------------------------------------------------------
  // Default names of new items

  /** Python's `a < b` on strings: code-point order, a proper prefix first. */
  predicate Precedes(a: string, b: string)
    decreases |a|
  {
    |b| > 0 && (|a| == 0 || a[0] < b[0] || (a[0] == b[0] && Precedes(a[1..], b[1..])))
  }

  lemma {:induction false} PrecedesTransitive(a: string, b: string, c: string)
    requires Precedes(a, b) && Precedes(b, c)
    ensures Precedes(a, c)
    decreases |a|
  {
    if |a| > 0 && a[0] == b[0] && b[0] == c[0] {
      PrecedesTransitive(a[1..], b[1..], c[1..]);
    }
  }

  lemma {:induction false} PrecedesIrreflexive(a: string)
    ensures !Precedes(a, a)
    decreases |a|
  {
    if |a| > 0 {
      PrecedesIrreflexive(a[1..]);
    }
  }

  lemma {:induction false} PrecedesTotal(a: string, b: string)
    ensures a == b || Precedes(a, b) || Precedes(b, a)
    decreases |a|
  {
    if |a| > 0 && |b| > 0 && a[0] == b[0] {
      PrecedesTotal(a[1..], b[1..]);
      if a[1..] == b[1..] {
        assert a == [a[0]] + a[1..] && b == [b[0]] + b[1..];
      }
    }
  }

  /** `max(names)`: the greatest name in string order, the first one on a tie. */
  function MaxText(names: seq<string>): (r: string)
    requires |names| > 0
    ensures r in names
    ensures forall i :: 0 <= i < |names| ==> !Precedes(r, names[i])
    decreases |names|
  {
    if |names| == 1 then
      PrecedesIrreflexive(names[0]);
      names[0]
    else
      var m := MaxText(names[1..]);
      assert forall i :: 1 <= i < |names| ==> names[i] == names[1..][i - 1];
      if Precedes(m, names[0]) then
        forall i | 1 <= i < |names| ensures !Precedes(names[0], names[i]) {
          if Precedes(names[0], names[i]) {
            PrecedesTransitive(m, names[0], names[i]);
          }
        }
        PrecedesIrreflexive(names[0]);
        names[0]
      else
        forall i | 0 <= i < |names| ensures !Precedes(m, names[i]) {
          if i == 0 {
            PrecedesTotal(m, names[0]);
          }
        }
        m
  }

  /** `findItems("New_Item_", MatchStartsWith)`: Qt compares without regard to case. */
  predicate IsNewItemName(t: string) {
    StartsWith(Lower(t), "new_item_")
  }

  const NewItemPrefix: string := "New_Item_"

  /**
   * `_create_item`'s name: `New_Item_` and the third `_`-field of the greatest
   * matching name plus one, zero-padded to two digits.  `max` of no names and
   * an `int()` that fails both raise ValueError, which gives `01`.
   */
  function NewItemName(texts: seq<string>): (r: string)
    ensures StartsWith(r, NewItemPrefix)
    ensures (forall i :: 0 <= i < |texts| ==> !IsNewItemName(texts[i])) ==> r == NewItemPrefix + "01"
    ensures var names := Filter(texts, IsNewItemName);
      |names| > 0 ==> var top := MaxText(names);
        IsNewItemName(top) &&
        (ParseInt(ThirdField(top)).Some? ==> r == NewItemPrefix + ZFill(IntToString(ParseInt(ThirdField(top)).value + 1), 2)) &&
        (ParseInt(ThirdField(top)).None? ==> r == NewItemPrefix + "01")
  {
    var names := Filter(texts, IsNewItemName);
    if |names| == 0 then NewItemPrefix + "01"
    else
      var top := MaxText(names);
      NameFields(top);
      match ParseInt(Split(top, "_")[2])
      case None => NewItemPrefix + "01"
      case Some(v) => NewItemPrefix + ZFill(IntToString(v + 1), 2)
  }

  /** A name that starts with `new_item_` in any case has at least three `_`-fields, the third starting after the prefix. */
  lemma NameFields(t: string)
    requires IsNewItemName(t)
    ensures |Split(t, "_")| >= 3 && Split(t, "_")[2] == Split(t[9..], "_")[0]
  {
    var low := Lower(t);
    assert low[..9] == "new_item_";
    forall k | 0 <= k < 9 ensures (t[k] == '_' <==> k == 3 || k == 8) {
      assert low[k] == LowerChar(t[k]);
      assert low[k] == "new_item_"[k];
    }
    var a := t[..3];
    var b := t[4..8];
    var rest := Split(t[9..], "_");
    var parts := [a, b] + rest;
    forall i | 0 <= i < |parts| ensures '_' !in parts[i] {
      if i >= 2 {
        assert parts[i] == rest[i - 2];
        ContainsChar(rest[i - 2], '_');
      }
    }
    assert Join(parts, "_") == t by {
      assert parts[1..] == [b] + rest;
      assert ([b] + rest)[1..] == rest;
      assert t == a + "_" + b + "_" + t[9..];
    }
    SplitOfJoin(parts, '_');
  }

  /** Every character of a zero-padded `str(i)` is a digit or the sign. */
  lemma ZFillNumeral(i: int, width: int)
    ensures forall k :: 0 <= k < |ZFill(IntToString(i), width)| ==>
      IsDigit(ZFill(IntToString(i), width)[k]) || ZFill(IntToString(i), width)[k] == '-'
  {
    var s := IntToString(i);
    var r := ZFill(s, width);
    forall k | 0 <= k < |r| ensures IsDigit(r[k]) || r[k] == '-' {
      if |s| < width {
        var z := width - |s|;
        if s[0] == '-' {
          assert r == [s[0]] + Zeros(z) + s[1..];
          if k > z {
            assert r[k] == s[1..][k - 1 - z];
          }
        } else {
          assert r == Zeros(z) + s;
          if k >= z {
            assert r[k] == s[k - z];
          }
        }
      } else if i < 0 && k > 0 {
        assert r[k] == s[1..][k - 1];
      }
    }
  }

  /** Every name the tree makes matches the `New_Item_` search. */
  lemma PrefixedIsNewItemName(x: string)
    ensures IsNewItemName(NewItemPrefix + x)
  {
    var t := NewItemPrefix + x;
    forall k | 0 <= k < 9 ensures Lower(t)[k] == "new_item_"[k] {
      assert t[k] == NewItemPrefix[k];
    }
    assert Lower(t)[..9] == "new_item_";
  }

  /** The third field of a name the tree makes is the text after the prefix, when that holds no `_`. */
  lemma ThirdFieldOfPrefixed(x: string)
    requires '_' !in x
    ensures IsNewItemName(NewItemPrefix + x)
    ensures |Split(NewItemPrefix + x, "_")| >= 3 && Split(NewItemPrefix + x, "_")[2] == x
  {
    PrefixedIsNewItemName(x);
    var t := NewItemPrefix + x;
    NameFields(t);
    assert t[9..] == x;
    ContainsChar(x, '_');
  }

  /**
   * The name as written repeats an existing one: `New_Item_99` is greater
   * than `New_Item_100` in string order, so with both present the next name
   * is `New_Item_100` again.
   */
  lemma NewItemNameRepeats()
    ensures NewItemName(["New_Item_99", "New_Item_100"]) == "New_Item_100"
    ensures "New_Item_100" in ["New_Item_99", "New_Item_100"]
  {
    RepeatsLiterals();
    NewItemNameRepeatsPrefixed();
  }

  lemma NewItemNameRepeatsPrefixed()
    ensures NewItemName([NewItemPrefix + "99", NewItemPrefix + "100"]) == NewItemPrefix + "100"
  {
    NinetyNineAfterHundred();
    RepeatsOf([NewItemPrefix + "99", NewItemPrefix + "100"]);
  }

  lemma RepeatsOf(texts: seq<string>)
    requires |texts| == 2 && texts[0] == NewItemPrefix + "99" && texts[1] == NewItemPrefix + "100"
    requires MaxText(texts) == texts[0]
    ensures NewItemName(texts) == NewItemPrefix + "100"
  {
    NinetyNineField(texts[0]);
    PrefixedIsNewItemName("100");
    assert forall i :: 0 <= i < |texts| ==> IsNewItemName(texts[i]);
    FilterAll(texts, IsNewItemName);
    HundredText();
    assert Filter(texts, IsNewItemName) == texts;
  }

  /** Literal fact for NewItemNameRepeats: `New_Item_99` is a new-item name whose number is 99. */
  lemma NinetyNineField(t: string)
    requires t == NewItemPrefix + "99"
    ensures IsNewItemName(t) && ParseInt(ThirdField(t)) == Some(99)
  {
    ThirdFieldOfPrefixed("99");
    NinetyNineParses();
  }

  /** Literal fact for NewItemNameRepeats: the prefixed names spelled out. */
  lemma RepeatsLiterals()
    ensures NewItemPrefix + "99" == "New_Item_99" && NewItemPrefix + "100" == "New_Item_100"
  {
  }

  /** Literal fact for NewItemNameRepeats: `New_Item_100` comes before `New_Item_99` in string order, so `max` picks the latter. */
  lemma NinetyNineAfterHundred()
    ensures MaxText([NewItemPrefix + "99", NewItemPrefix + "100"]) == NewItemPrefix + "99"
  {
    assert Precedes("100", "99");
    PrecedesCommonPrefix(NewItemPrefix, "100", "99");
    var names := [NewItemPrefix + "99", NewItemPrefix + "100"];
    assert names[1..] == [NewItemPrefix + "100"];
  }

  /** Literal fact for NewItemNameRepeats: `int("99")` is 99. */
  lemma NinetyNineParses()
    ensures ParseInt("99") == Some(99)
  {
    assert "99"[..1] == "9";
    assert ParseDigits("9") == 9;
  }

  /** Literal fact: `int("01")` is 1. */
  lemma OneParses()
    ensures ParseInt("01") == Some(1)
  {
    assert "01"[..1] == "0" && "0"[..0] == "";
    assert ParseDigits("0") == 0;
    assert ParseDigits("01") == 1;
  }

  /** Literal fact for NewItemNameRepeats: 100 padded to two digits stays `100`. */
  lemma HundredText()
    ensures ZFill(IntToString(100), 2) == "100"
  {
    assert NatToString(1) == "1";
    assert NatToString(10) == "10";
    assert IntToString(100) == "100";
  }

  /**
   * The name as written on any tree, `root` and other texts included: one
   * past the number of the greatest name in string order that matches the
   * search, whatever else the tree holds.
   */
  lemma NewItemNameOfTop(texts: seq<string>, top: string, v: int)
    requires top in texts && IsNewItemName(top) && ParseInt(ThirdField(top)) == Some(v)
    requires forall i :: 0 <= i < |texts| && IsNewItemName(texts[i]) ==> !Precedes(top, texts[i])
    ensures NewItemName(texts) == NewItemPrefix + ZFill(IntToString(v + 1), 2)
  {
    var names := Filter(texts, IsNewItemName);
    assert top in names;
    var m := MaxText(names);
    assert m in texts && IsNewItemName(m);
    var i :| 0 <= i < |texts| && texts[i] == m;
    var j :| 0 <= j < |names| && names[j] == top;
    assert !Precedes(top, m) && !Precedes(m, top);
    PrecedesTotal(m, top);
  }

  /** A common prefix keeps string order. */
  lemma {:induction false} PrecedesCommonPrefix(p: string, a: string, b: string)
    requires Precedes(a, b)
    ensures Precedes(p + a, p + b)
    decreases |p|
  {
    if |p| > 0 {
      PrecedesCommonPrefix(p[1..], a, b);
      assert (p + a)[1..] == p[1..] + a && (p + b)[1..] == p[1..] + b;
      assert (p + a)[0] == p[0] == (p + b)[0];
    } else {
      assert p + a == a && p + b == b;
    }
  }

  /** The third field of a matching name. */
  function ThirdField(t: string): (f: string)
    requires IsNewItemName(t)
  {
    NameFields(t);
    Split(t, "_")[2]
  }

  /** The values `int()` reads from the third fields of the matching names, in order. */
  function FieldValues(texts: seq<string>): (r: seq<int>)
    ensures forall i :: 0 <= i < |texts| && IsNewItemName(texts[i]) && ParseInt(ThirdField(texts[i])).Some? ==>
      ParseInt(ThirdField(texts[i])).value in r
    decreases |texts|
  {
    if |texts| == 0 then []
    else
      var rest := FieldValues(texts[1..]);
      assert forall i :: 1 <= i < |texts| ==> texts[i] == texts[1..][i - 1];
      if IsNewItemName(texts[0]) && ParseInt(ThirdField(texts[0])).Some? then
        [ParseInt(ThirdField(texts[0])).value] + rest
      else rest
  }

  function MaxInt(s: seq<int>): (m: int)
    requires |s| > 0
    ensures m in s && forall k :: 0 <= k < |s| ==> s[k] <= m
  {
    if |s| == 1 then s[0]
    else
      var m := MaxInt(s[1..]);
      assert forall k :: 1 <= k < |s| ==> s[k] == s[1..][k - 1];
      if s[0] > m then s[0] else m
  }

  /** The number after the prefix in the intended name: one past the greatest value, or `01`. */
  function FreshSuffix(vs: seq<int>): string {
    if |vs| == 0 then "01" else ZFill(IntToString(MaxInt(vs) + 1), 2)
  }

  /** The intended default name: one past the greatest number among the matching names. */
  function NewItemNameFresh(texts: seq<string>): (r: string)
    ensures StartsWith(r, NewItemPrefix)
  {
    NewItemPrefix + FreshSuffix(FieldValues(texts))
  }

  /** The suffix holds no `_` and reads back as a number none of the names carries. */
  lemma FreshSuffixParses(vs: seq<int>)
    ensures '_' !in FreshSuffix(vs)
    ensures ParseInt(FreshSuffix(vs)).Some? && ParseInt(FreshSuffix(vs)).value !in vs
  {
    if |vs| == 0 {
      OneParses();
    } else {
      var m := MaxInt(vs);
      ZFillKeepsValue(m + 1, 2);
      ZFillNumeral(m + 1, 2);
      assert '_' !in FreshSuffix(vs);
    }
  }

  /** A name whose number is not among the values read from the names is not one of them. */
  lemma AbsentValueAbsentName(texts: seq<string>, x: string)
    requires IsNewItemName(NewItemPrefix + x) && ParseInt(ThirdField(NewItemPrefix + x)).Some?
    requires ParseInt(ThirdField(NewItemPrefix + x)).value !in FieldValues(texts)
    ensures NewItemPrefix + x !in texts
  {
    forall i | 0 <= i < |texts| ensures texts[i] != NewItemPrefix + x {
    }
  }

  /** The intended name is never the text of an existing item. */
  lemma NewItemNameFreshIsFresh(texts: seq<string>)
    ensures NewItemNameFresh(texts) !in texts
  {
    var x := FreshSuffix(FieldValues(texts));
    FreshSuffixParses(FieldValues(texts));
    ThirdFieldOfPrefixed(x);
    AbsentValueAbsentName(texts, x);
  }

  // ---------------------------------------------------------------------------
  // Editing, renaming and deleting items

  /** The item's own text. */
  function Text(chain: Chain): string
    requires chain != []
  {
    chain[|chain| - 1]
  }

  /** Every item is named, and no text holds `|`, the path separator. */
  predicate Separable(items: seq<Chain>) {
    forall i :: 0 <= i < |items| ==> items[i] != [] && forall k :: 0 <= k < |items[i]| ==> '|' !in items[i][k]
  }

  /** Joining two non-empty lists of pieces puts one separator between the two joins. */
  lemma {:induction false} JoinAppend(a: seq<string>, b: seq<string>, sep: string)
    requires |a| >= 1 && |b| >= 1
    ensures Join(a + b, sep) == Join(a, sep) + sep + Join(b, sep)
    decreases |a|
  {
    if |a| == 1 {
      assert (a + b)[1..] == b;
    } else {
      assert (a + b)[1..] == a[1..] + b;
      JoinAppend(a[1..], b, sep);
    }
  }

  /** Distinct lists of `|`-free texts have distinct paths. */
  lemma PathInjective(a: Chain, b: Chain)
    requires a != [] && b != []
    requires forall k :: 0 <= k < |a| ==> '|' !in a[k]
    requires forall k :: 0 <= k < |b| ==> '|' !in b[k]
    ensures PathOf(a) == PathOf(b) ==> a == b
  {
    SplitOfJoin(a, '|');
    SplitOfJoin(b, '|');
  }

  /**
   * `TreeWidgetItem.setData` for an edit of the item `chain` to `value`: the
   * text is refused when the path it would give is empty, or when an item
   * that already has the text `value` has that path.
   */
  function AcceptsEdit(items: seq<Chain>, chain: Chain, value: string): (r: bool)
    requires chain != [] && forall i :: 0 <= i < |items| ==> items[i] != []
    ensures r ==> !(|chain| == 1 && value == "")
    ensures r ==> forall i :: 0 <= i < |items| && Text(items[i]) == value ==> PathOf(items[i]) != UserData(value, chain).value
    ensures !r ==> ((|chain| == 1 && value == "") ||
      exists i :: 0 <= i < |items| && Text(items[i]) == value && PathOf(items[i]) == UserData(value, chain).value)
  {
    EmptyPathOnlyAtTop(chain, value);
    var path := UserData(value, chain).value;
    path != "" && forall i :: 0 <= i < |items| && Text(items[i]) == value ==> PathOf(items[i]) != path
  }

  /** Only a top-level item edited to the empty text would get the empty path. */
  lemma EmptyPathOnlyAtTop(chain: Chain, value: string)
    requires chain != []
    ensures UserData(value, chain).value == "" <==> |chain| == 1 && value == ""
  {
    if |chain| > 1 {
      var parts := chain[..|chain| - 1] + [value];
      assert |Join(parts, "|")| >= 1;
    }
  }

  /**
   * With `|`-free texts, an accepted edit gives a path that no item of the
   * tree has, whatever its text: the check by text loses nothing.  Editing
   * an item of the tree to its own text is refused.
   */
  lemma AcceptedEditIsNew(items: seq<Chain>, chain: Chain, value: string)
    requires Separable(items) && chain != [] && '|' !in value
    requires forall k :: 0 <= k < |chain| ==> '|' !in chain[k]
    ensures AcceptsEdit(items, chain, value) ==>
      forall i :: 0 <= i < |items| ==> PathOf(items[i]) != UserData(value, chain).value
    ensures chain in items ==> !AcceptsEdit(items, chain, Text(chain))
  {
    var edited := chain[..|chain| - 1] + [value];
    assert UserData(value, chain).value == PathOf(edited);
    forall i | 0 <= i < |items| && AcceptsEdit(items, chain, value)
      ensures PathOf(items[i]) != PathOf(edited)
    {
      PathInjective(items[i], edited);
    }
  }

  /**
   * `_rename_category` followed by `_item_changed`: the pair of paths the
   * rename signal carries, old then new.  Nothing is renamed when the item's
   * text is `root` in any case; with no current item, `.text` raises.  When
   * `setData` refuses the edit the text stays, and the signal carries the
   * old path twice.
   */
  function Rename(items: seq<Chain>, chain: Chain, value: string): (r: Result<Option<(string, string)>>)
    requires forall i :: 0 <= i < |items| ==> items[i] != []
    ensures r.Err? <==> chain == []
    ensures r.Err? ==> r.error.AttributeError?
    ensures r.Ok? ==> (r.value.None? <==> Lower(Text(chain)) == "root")
    ensures r.Ok? && r.value.Some? ==> Some(r.value.value.0) == UserData(Text(chain), chain)
    ensures r.Ok? && r.value.Some? && AcceptsEdit(items, chain, value) ==> Some(r.value.value.1) == UserData(value, chain)
    ensures r.Ok? && r.value.Some? && !AcceptsEdit(items, chain, value) ==> r.value.value.1 == r.value.value.0
  {
    if chain == [] then Err(AttributeError("text"))
    else if Lower(Text(chain)) == "root" then Ok(None)
    else if AcceptsEdit(items, chain, value) then Ok(Some((PathOf(chain), UserData(value, chain).value)))
    else Ok(Some((PathOf(chain), PathOf(chain))))
  }

  /**
   * Below the top, an accepted rename changes only the last segment of the
   * path; a refused one carries the old path as the new one.
   */
  lemma RenameLastSegment(items: seq<Chain>, chain: Chain, value: string)
    requires forall i :: 0 <= i < |items| ==> items[i] != []
    requires |chain| >= 2 && Lower(Text(chain)) != "root"
    ensures Rename(items, chain, value).Ok? && Rename(items, chain, value).value.Some?
    ensures var parent := chain[..|chain| - 1];
      Rename(items, chain, value).value.value ==
        (PathOf(parent) + "|" + Text(chain),
         PathOf(parent) + "|" + (if AcceptsEdit(items, chain, value) then value else Text(chain)))
  {
    var parent := chain[..|chain| - 1];
    assert parent + [Text(chain)] == chain;
    UserDataOfChild(Text(chain), parent, Text(chain));
    UserDataOfChild(value, parent, Text(chain));
  }

  /** Renaming an item to the text of a sibling is refused: the signal carries the old path twice. */
  lemma RenameOntoSiblingRefused(items: seq<Chain>, chain: Chain, value: string)
    requires forall i :: 0 <= i < |items| ==> items[i] != []
    requires chain != [] && Lower(Text(chain)) != "root"
    requires chain[..|chain| - 1] + [value] in items
    ensures !AcceptsEdit(items, chain, value)
    ensures Rename(items, chain, value) == Ok(Some((PathOf(chain), PathOf(chain))))
  {
    var sibling := chain[..|chain| - 1] + [value];
    var i :| 0 <= i < |items| && items[i] == sibling;
    assert Text(items[i]) == value;
    assert PathOf(items[i]) == UserData(value, chain).value;
  }

  /** `c` lies strictly below the item `anc`. */
  predicate Below(anc: Chain, c: Chain) {
    |anc| < |c| && c[..|anc|] == anc
  }

  /** What `_delete_items` does: the path the remove signal carries, the items left, and what it raised. */
  datatype Deletion = Deletion(removed: Option<string>, items: seq<Chain>, error: Option<Error>)

  /**
   * `_delete_items`: the item `root` (any case) and an unconfirmed deletion
   * change nothing.  Otherwise the remove signal carries the item's path,
   * its children are taken, and the item leaves its parent; a top-level item
   * has no parent, so `removeChild` raises after its children are gone.
   */
  function Delete(items: seq<Chain>, current: Chain, confirmed: bool): (r: Deletion)
    ensures current == [] ==> r == Deletion(None, items, Some(AttributeError("text")))
    ensures current != [] && (Lower(Text(current)) == "root" || !confirmed) ==> r == Deletion(None, items, None)
    ensures r.removed.Some? ==> r.removed == UserData(Text(current), current)
    ensures r.removed.Some? ==> (r.error.Some? <==> |current| == 1)
    ensures forall c :: c in r.items ==> c in items
  {
    if current == [] then Deletion(None, items, Some(AttributeError("text")))
    else if Lower(Text(current)) == "root" || !confirmed then Deletion(None, items, None)
    else if |current| == 1 then
      Deletion(Some(PathOf(current)), Filter(items, c => !Below(current, c)), Some(AttributeError("removeChild")))
    else Deletion(Some(PathOf(current)), Filter(items, c => !Below(current, c) && c != current), None)
  }

  /**
   * A confirmed deletion below the top removes exactly the item and the
   * items under it, and those are exactly the items whose paths the store
   * deletes for the removed path: the path itself and the paths under it.
   */
  lemma DeleteRemovesSubtree(items: seq<Chain>, current: Chain)
    requires Separable(items) && |current| >= 2 && Lower(Text(current)) != "root"
    requires forall k :: 0 <= k < |current| ==> '|' !in current[k]
    ensures var r := Delete(items, current, true);
      r.removed == Some(PathOf(current)) && r.error == None &&
      forall c :: c in items ==> (c !in r.items <==> c == current || Below(current, c))
    ensures forall i :: 0 <= i < |items| ==>
      (items[i] == current || Below(current, items[i]) <==>
       PathOf(items[i]) == PathOf(current) || StartsWith(PathOf(items[i]), PathOf(current) + "|"))
  {
    forall i | 0 <= i < |items|
      ensures items[i] == current || Below(current, items[i]) <==>
        PathOf(items[i]) == PathOf(current) || StartsWith(PathOf(items[i]), PathOf(current) + "|")
    {
      PathBelow(current, items[i]);
    }
  }

  /** For `|`-free texts, one item is under another exactly when its path extends the other's by `|`. */
  lemma PathBelow(anc: Chain, c: Chain)
    requires anc != [] && c != []
    requires forall k :: 0 <= k < |anc| ==> '|' !in anc[k]
    requires forall k :: 0 <= k < |c| ==> '|' !in c[k]
    ensures c == anc || Below(anc, c) <==> PathOf(c) == PathOf(anc) || StartsWith(PathOf(c), PathOf(anc) + "|")
  {
    PathInjective(anc, c);
    if Below(anc, c) {
      var rest := c[|anc|..];
      assert c == anc + rest;
      JoinAppend(anc, rest, "|");
    }
    if c != anc && StartsWith(PathOf(c), PathOf(anc) + "|") {
      PathExtends(anc, c);
    }
  }

  /** A path that extends another by `|` belongs to an item under it. */
  lemma PathExtends(anc: Chain, c: Chain)
    requires anc != [] && c != []
    requires forall k :: 0 <= k < |anc| ==> '|' !in anc[k]
    requires forall k :: 0 <= k < |c| ==> '|' !in c[k]
    requires StartsWith(PathOf(c), PathOf(anc) + "|")
    ensures Below(anc, c)
  {
    var p := PathOf(anc);
    var s := PathOf(c);
    var rest := s[|p| + 1..];
    assert s == p + "|" + rest;
    var tail := Split(rest, "|");
    SplitOfJoin(anc, '|');
    var whole := anc + tail;
    JoinAppend(anc, tail, "|");
    assert Join(whole, "|") == s;
    forall i | 0 <= i < |whole| ensures '|' !in whole[i] {
      if i >= |anc| {
        assert whole[i] == tail[i - |anc|];
        ContainsChar(tail[i - |anc|], '|');
      }
    }
    SplitOfJoin(whole, '|');
    SplitOfJoin(c, '|');
    assert c == whole;
    assert c[..|anc|] == anc;
  }

  // ---------------------------------------------------------------------------
  // Finding the item for a category path

  /** Every item is named and its path holds no regular-expression metacharacter but `|`. */
  predicate PlainItems(items: seq<Chain>) {
    forall i :: 0 <= i < |items| ==> items[i] != [] && CategoryPattern.Literal(PathOf(items[i]))
  }

  /**
   * `is_category_item_exists(category, target)` looks at the items with the
   * text `category` (`findItems`, recursive and exact) and accepts one when
   * the pattern built from its path matches the target.
   */
  predicate Accepts(item: Chain, category: string, target: string)
    requires item != [] && CategoryPattern.Literal(PathOf(item))
  {
    Text(item) == category && CategoryPattern.KeyMatches(PathOf(item), target)
  }

  /** The index of the first item, in tree order, that the search accepts. */
  function FindCategory(items: seq<Chain>, category: string, target: string): (r: Option<nat>)
    requires PlainItems(items)
    ensures r.Some? ==> r.value < |items| && Accepts(items[r.value], category, target)
    ensures r.Some? ==> forall j :: 0 <= j < r.value ==> !Accepts(items[j], category, target)
    ensures r.None? ==> forall j :: 0 <= j < |items| ==> !Accepts(items[j], category, target)
    decreases |items|
  {
    if |items| == 0 then None
    else if Accepts(items[0], category, target) then Some(0)
    else
      assert forall j :: 1 <= j < |items| ==> items[j] == items[1..][j - 1];
      match FindCategory(items[1..], category, target)
      case None => None
      case Some(i) => Some(i + 1)
  }

  /**
   * For a target without newlines, an item is found exactly when some item
   * with the text `category` has the target as its path or as a path under it.
   */
  lemma FindCategoryPaths(items: seq<Chain>, category: string, target: string)
    requires PlainItems(items) && '\n' !in target
    ensures FindCategory(items, category, target).Some? <==>
      exists j :: 0 <= j < |items| && Text(items[j]) == category &&
        (target == PathOf(items[j]) || StartsWith(target, PathOf(items[j]) + "|"))
  {
    forall j | 0 <= j < |items|
      ensures Accepts(items[j], category, target) <==>
        Text(items[j]) == category && (target == PathOf(items[j]) || StartsWith(target, PathOf(items[j]) + "|"))
    {
      CategoryPattern.MatchesNewlineFree(PathOf(items[j]), target);
    }
  }

  /** Searching for an item's own path finds that item or one before it. */
  lemma FindsOwnPath(items: seq<Chain>, j: nat)
    requires PlainItems(items) && j < |items|
    ensures FindCategory(items, Text(items[j]), PathOf(items[j])).Some?
    ensures FindCategory(items, Text(items[j]), PathOf(items[j])).value <= j
  {
    var p := PathOf(items[j]);
    assert '\n' !in p by {
      ContainsChar(p, '\n');
    }
    CategoryPattern.MatchesNewlineFree(p, p);
  }
}
