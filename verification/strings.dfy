/**
 * Python `str` operations the modelled code relies on: prefix and suffix
 * tests, `in`, `split`, `join`, `replace`, `rsplit(c, 1)`, `lower` and the
 * blank test behind `strip() == ''`.  Case mapping and whitespace are the
 * ASCII subset of Python's Unicode tables.
 */
module Strings {
  import opened Wrappers

  predicate StartsWith(s: string, prefix: string) {
    |prefix| <= |s| && s[..|prefix|] == prefix
  }

  predicate EndsWith(s: string, suffix: string) {
    |suffix| <= |s| && s[|s| - |suffix|..] == suffix
  }

  /** `s.endswith(suffixes)` for a tuple of suffixes. */
  predicate EndsWithAny(s: string, suffixes: seq<string>) {
    |suffixes| > 0 && (EndsWith(s, suffixes[0]) || EndsWithAny(s, suffixes[1..]))
  }

  lemma EndsWithAnyIff(s: string, suffixes: seq<string>)
    ensures EndsWithAny(s, suffixes) <==> exists i :: 0 <= i < |suffixes| && EndsWith(s, suffixes[i])
  {
    if |suffixes| > 0 {
      EndsWithAnyIff(s, suffixes[1..]);
      if EndsWithAny(s, suffixes[1..]) {
        var i :| 0 <= i < |suffixes[1..]| && EndsWith(s, suffixes[1..][i]);
        assert EndsWith(s, suffixes[i + 1]);
      }
      if exists i :: 0 <= i < |suffixes| && EndsWith(s, suffixes[i]) {
        var i :| 0 <= i < |suffixes| && EndsWith(s, suffixes[i]);
        if i > 0 {
          assert EndsWith(s, suffixes[1..][i - 1]);
        }
      }
    }
  }

  /** `sub` occurs in `s` starting at index `j`. */
  predicate At(s: string, sub: string, j: int) {
    0 <= j && j + |sub| <= |s| && s[j..j + |sub|] == sub
  }

  lemma AtShift(s: string, sub: string, j: int)
    requires |s| > 0 && j >= 0
    ensures At(s[1..], sub, j) <==> At(s, sub, j + 1)
  {
    if 0 <= j && j + |sub| <= |s| - 1 {
      assert s[1..][j..j + |sub|] == s[j + 1..j + 1 + |sub|];
    }
  }

  /** `s.find(sub)`: the first index where `sub` occurs, if any. */
  function IndexOf(s: string, sub: string): (r: Option<nat>)
    ensures r.Some? ==> At(s, sub, r.value) && forall j :: 0 <= j < r.value ==> !At(s, sub, j)
    ensures r.None? ==> forall j :: !At(s, sub, j)
    decreases |s|
  {
    if At(s, sub, 0) then Some(0)
    else if |s| == 0 then None
    else
      var rest := IndexOf(s[1..], sub);
      assert forall j :: At(s, sub, j) <==> j > 0 && At(s[1..], sub, j - 1) by {
        forall j ensures At(s, sub, j) <==> j > 0 && At(s[1..], sub, j - 1) {
          if j > 0 {
            AtShift(s, sub, j - 1);
          }
        }
      }
      if rest.Some? then Some(rest.value + 1) else None
  }

  /** Python's `sub in s`. */
  predicate Contains(s: string, sub: string) {
    IndexOf(s, sub).Some?
  }

  lemma ContainsIff(s: string, sub: string)
    ensures Contains(s, sub) <==> exists j :: At(s, sub, j)
  {
  }

  lemma ContainsChar(s: string, c: char)
    ensures Contains(s, [c]) <==> c in s
  {
    if c in s {
      var j :| 0 <= j < |s| && s[j] == c;
      assert At(s, [c], j);
    }
    if Contains(s, [c]) {
      var j := IndexOf(s, [c]).value;
      assert s[j..j + 1] == [c];
      assert s[j] == c;
    }
  }

  /** `sep.join(parts)`. */
  function Join(parts: seq<string>, sep: string): string {
    if |parts| == 0 then ""
    else if |parts| == 1 then parts[0]
    else parts[0] + sep + Join(parts[1..], sep)
  }

  lemma AtInPrefix(s: string, sub: string, i: nat, j: int)
    requires i <= |s|
    requires At(s[..i], sub, j)
    ensures At(s, sub, j) && j + |sub| <= i
  {
    assert s[..i][j..j + |sub|] == s[j..j + |sub|];
  }

  /**
   * `s.split(sep)` for a non-empty separator: the pieces between the
   * occurrences of `sep`, found left to right without overlap.  Joining the
   * pieces with `sep` gives `s` back, and no piece contains `sep`.
   */
  function Split(s: string, sep: string): (parts: seq<string>)
    requires |sep| > 0
    ensures |parts| >= 1
    ensures Join(parts, sep) == s
    ensures forall i :: 0 <= i < |parts| ==> !Contains(parts[i], sep)
    decreases |s|
  {
    match IndexOf(s, sep)
    case None => [s]
    case Some(i) =>
      var head := s[..i];
      assert !Contains(head, sep) by {
        if Contains(head, sep) {
          var j := IndexOf(head, sep).value;
          AtInPrefix(s, sep, i, j);
          assert false;
        }
      }
      var rest := Split(s[i + |sep|..], sep);
      assert s == head + sep + s[i + |sep|..];
      [head] + rest
  }

  /**
   * Splitting `a + sep + b` gives `[a, b]` back when no occurrence of `sep`
   * can start inside `a` and `b` holds none.
   */
  lemma SplitTwo(a: string, sep: string, b: string)
    requires |sep| > 0 && sep[0] !in a && !Contains(b, sep)
    ensures Split(a + sep + b, sep) == [a, b]
  {
    var s := a + sep + b;
    assert At(s, sep, |a|) by {
      assert s[|a|..|a| + |sep|] == sep;
    }
    forall j | 0 <= j < |a| ensures !At(s, sep, j) {
      assert s[j] == a[j];
    }
    assert IndexOf(s, sep) == Some(|a|);
    assert s[..|a|] == a;
    assert s[|a| + |sep|..] == b;
  }

  /** Splitting on a single character undoes joining on it, when no piece holds that character. */
  lemma {:induction false} SplitOfJoin(parts: seq<string>, c: char)
    requires |parts| >= 1
    requires forall i :: 0 <= i < |parts| ==> c !in parts[i]
    ensures Split(Join(parts, [c]), [c]) == parts
    decreases |parts|
  {
    var s := Join(parts, [c]);
    if |parts| == 1 {
      ContainsChar(parts[0], c);
      assert IndexOf(s, [c]).None?;
    } else {
      var p := parts[0];
      var rest := Join(parts[1..], [c]);
      assert s == p + [c] + rest;
      assert At(s, [c], |p|) by {
        assert s[|p|..|p| + 1] == [c];
      }
      forall j | 0 <= j < |p|
        ensures !At(s, [c], j)
      {
        assert s[j..j + 1] == [p[j]];
      }
      assert IndexOf(s, [c]) == Some(|p|);
      assert s[|p| + 1..] == rest;
      SplitOfJoin(parts[1..], c);
    }
  }

  /** `s.replace(pat, repl)` for a non-empty `pat`: Python defines it as `repl.join(s.split(pat))`. */
  function Replace(s: string, pat: string, repl: string): string
    requires |pat| > 0
  {
    Join(Split(s, pat), repl)
  }

  /** Replacing a character that does not occur leaves the text alone. */
  lemma ReplaceAbsent(s: string, pat: string, repl: string)
    requires |pat| > 0
    requires !Contains(s, pat)
    ensures Replace(s, pat, repl) == s
  {
    assert Split(s, pat) == [s];
  }

  /** Replacing every `c` by `d` leaves no `c` behind, when `d` is not `c`. */
  lemma {:induction false} ReplaceCharRemoves(s: string, c: char, d: char)
    requires c != d
    ensures c !in Replace(s, [c], [d])
    decreases |s|
  {
    var parts := Split(s, [c]);
    forall i | 0 <= i < |parts| ensures c !in parts[i] {
      ContainsChar(parts[i], c);
    }
    JoinAvoids(parts, [d], c);
  }

  /** Every `c` of `s` turned into `d`, position by position. */
  function SubstChar(s: string, c: char, d: char): string {
    seq(|s|, i requires 0 <= i < |s| => if s[i] == c then d else s[i])
  }

  /** Replacing one character by another is the position-by-position substitution. */
  lemma {:induction false} ReplaceIsSubstChar(s: string, c: char, d: char)
    ensures Replace(s, [c], [d]) == SubstChar(s, c, d)
    decreases |s|
  {
    match IndexOf(s, [c])
    case None =>
      ContainsChar(s, c);
      ReplaceAbsent(s, [c], [d]);
      assert SubstChar(s, c, d) == s;
    case Some(i) =>
      ReplaceIsSubstChar(s[i + 1..], c, d);
      ReplaceStep(s, c, d, i);
      SubstCharStep(s, c, d, i);
  }

  /** Replacing at the first occurrence: the text before it, the replacement, then the rest replaced. */
  lemma ReplaceStep(s: string, c: char, d: char, i: nat)
    requires IndexOf(s, [c]) == Some(i)
    ensures Replace(s, [c], [d]) == s[..i] + [d] + Replace(s[i + 1..], [c], [d])
  {
    var tail := Split(s[i + 1..], [c]);
    assert Split(s, [c]) == [s[..i]] + tail;
    assert ([s[..i]] + tail)[1..] == tail;
  }

  /** Substitution at the first occurrence of `c`: the text before it is unchanged. */
  lemma SubstCharStep(s: string, c: char, d: char, i: nat)
    requires IndexOf(s, [c]) == Some(i)
    ensures SubstChar(s, c, d) == s[..i] + [d] + SubstChar(s[i + 1..], c, d)
  {
    forall j | 0 <= j < i ensures s[j] != c {
      assert !At(s, [c], j);
      assert s[j..j + 1] == [s[j]];
    }
    assert s[i..i + 1] == [c];
  }

  /** Substituting a character keeps a suffix that does not hold it. */
  lemma SubstCharEndsWith(s: string, c: char, d: char, suffix: string)
    requires EndsWith(s, suffix) && c !in suffix
    ensures EndsWith(SubstChar(s, c, d), suffix)
  {
    var r := SubstChar(s, c, d);
    forall k | 0 <= k < |suffix| ensures r[|r| - |suffix| + k] == suffix[k] {
      assert s[|s| - |suffix|..][k] == suffix[k];
    }
  }

  lemma {:induction false} JoinAvoids(parts: seq<string>, sep: string, c: char)
    requires c !in sep
    requires forall i :: 0 <= i < |parts| ==> c !in parts[i]
    ensures c !in Join(parts, sep)
    decreases |parts|
  {
    if |parts| > 1 {
      JoinAvoids(parts[1..], sep, c);
    }
  }

  /** A separator is overlap-free when no proper suffix of it is also a prefix of it. */
  predicate OverlapFree(sep: string) {
    forall d :: 0 < d < |sep| ==> sep[d..] != sep[..|sep| - d]
  }

  /** An occurrence of `sep` that overlaps the occurrence ending `s` shifts `sep` onto itself. */
  lemma OverlapShift(s: string, sep: string, i: nat)
    requires EndsWith(s, sep) && At(s, sep, i)
    requires |s| - 2 * |sep| < i <= |s| - |sep|
    ensures var d := |s| - |sep| - i; 0 <= d < |sep| && sep[d..] == sep[..|sep| - d]
  {
    var d := |s| - |sep| - i;
    assert sep[d..] == s[i + d..i + |sep|];
    assert sep[..|sep| - d] == s[|s| - |sep|..i + |sep|];
  }

  /** Splitting a text that ends with an overlap-free separator yields a last piece that is empty. */
  lemma {:induction false} SplitEndsEmpty(s: string, sep: string)
    requires |sep| > 0 && OverlapFree(sep)
    requires EndsWith(s, sep)
    ensures |Split(s, sep)| >= 2 && Split(s, sep)[|Split(s, sep)| - 1] == ""
    decreases |s|
  {
    assert At(s, sep, |s| - |sep|);
    var i := IndexOf(s, sep).value;
    assert i <= |s| - |sep|;
    var rest := s[i + |sep|..];
    SplitStep(s, sep, i);
    if i <= |s| - 2 * |sep| {
      assert rest[|rest| - |sep|..] == s[|s| - |sep|..];
      SplitEndsEmpty(rest, sep);
    } else {
      OverlapShift(s, sep, i);
      assert i == |s| - |sep|;
      assert rest == "";
      assert !At("", sep, 0);
      assert Split(rest, sep) == [""];
    }
  }

  /** Splitting at the first occurrence adds one piece in front and keeps the last piece of the rest. */
  lemma SplitStep(s: string, sep: string, i: nat)
    requires |sep| > 0 && IndexOf(s, sep) == Some(i)
    ensures var tail := Split(s[i + |sep|..], sep);
      |Split(s, sep)| == |tail| + 1 && Split(s, sep)[|Split(s, sep)| - 1] == tail[|tail| - 1]
  {
    var tail := Split(s[i + |sep|..], sep);
    var parts := Split(s, sep);
    assert parts == [s[..i]] + tail;
    assert parts[|parts| - 1] == tail[|tail| - 1];
  }

  /** A join starts with its first piece and ends with its last. */
  lemma {:induction false} JoinEnds(parts: seq<string>, sep: string)
    requires |parts| >= 1
    ensures StartsWith(Join(parts, sep), parts[0])
    ensures EndsWith(Join(parts, sep), parts[|parts| - 1])
    decreases |parts|
  {
    if |parts| > 1 {
      var last := parts[|parts| - 1];
      var t := Join(parts[1..], sep);
      JoinEnds(parts[1..], sep);
      var j := parts[0] + sep + t;
      assert j == Join(parts, sep);
      assert j[..|parts[0]|] == parts[0];
      assert parts[1..][|parts[1..]| - 1] == last;
      assert j[|j| - |last|..] == t[|t| - |last|..];
    }
  }

  /** Joining pieces whose last is empty ends with the separator. */
  lemma {:induction false} JoinEndsWithSep(parts: seq<string>, sep: string)
    requires |parts| >= 2 && parts[|parts| - 1] == ""
    ensures EndsWith(Join(parts, sep), sep)
    decreases |parts|
  {
    if |parts| == 2 {
      assert Join(parts, sep) == parts[0] + sep + "";
    } else {
      JoinEndsWithSep(parts[1..], sep);
      var j := Join(parts[1..], sep);
      assert Join(parts, sep) == parts[0] + sep + j;
      assert (parts[0] + sep + j)[|parts[0] + sep + j| - |sep|..] == j[|j| - |sep|..];
    }
  }

  /** `s.rfind(c)`: the last index holding `c`, if any. */
  function RFindChar(s: string, c: char): (r: Option<nat>)
    ensures r.Some? ==> r.value < |s| && s[r.value] == c
    ensures r.Some? ==> forall j :: r.value < j < |s| ==> s[j] != c
    ensures r.None? ==> c !in s
  {
    if |s| == 0 then None
    else if s[|s| - 1] == c then Some(|s| - 1)
    else RFindChar(s[..|s| - 1], c)
  }

  /** `s.rsplit(c, 1)` for a one-character separator. */
  function RSplitOnce(s: string, c: char): (parts: seq<string>)
    ensures 1 <= |parts| <= 2
    ensures |parts| == 1 <==> c !in s
    ensures |parts| == 1 ==> parts[0] == s
    ensures |parts| == 2 ==> parts[0] + [c] + parts[1] == s && c !in parts[1]
  {
    match RFindChar(s, c)
    case None => [s]
    case Some(i) =>
      assert s == s[..i] + [c] + s[i + 1..];
      [s[..i], s[i + 1..]]
  }

  /** `rsplit(c, 1)` cuts at the last `c`: the one before a tail free of `c`. */
  lemma RSplitOnceLast(x: string, c: char, y: string)
    requires c !in y
    ensures RSplitOnce(x + [c] + y, c) == [x, y]
  {
    var s := x + [c] + y;
    assert s[|x|] == c;
    forall j | |x| < j < |s| ensures s[j] != c {
      assert s[j] == y[j - |x| - 1];
    }
    assert RFindChar(s, c) == Some(|x|);
    assert s[..|x|] == x && s[|x| + 1..] == y;
  }

  function LowerChar(c: char): char {
    if 'A' <= c <= 'Z' then (c as int + 32) as char else c
  }

  /** `s.lower()` on the ASCII letters. */
  function Lower(s: string): (r: string)
    ensures |r| == |s|
    ensures forall i :: 0 <= i < |s| ==> r[i] == LowerChar(s[i])
  {
    seq(|s|, i requires 0 <= i < |s| => LowerChar(s[i]))
  }

  /** Text without upper-case ASCII letters is its own lower-case form. */
  lemma LowerOfLower(s: string)
    requires forall i :: 0 <= i < |s| ==> !('A' <= s[i] <= 'Z')
    ensures Lower(s) == s
  {
  }

  /** The characters `str.strip()` removes: Python's whitespace, Unicode included. */
  predicate IsSpace(c: char) {
    c == ' ' || ('\t' <= c <= '\r') || ('\U{1c}' <= c <= '\U{1f}')
    || c == '\U{85}' || c == '\U{a0}' || c == '\U{1680}' || ('\U{2000}' <= c <= '\U{200a}')
    || c == '\U{2028}' || c == '\U{2029}' || c == '\U{202f}' || c == '\U{205f}' || c == '\U{3000}'
  }

  /** `s.strip() == ''`. */
  predicate IsBlank(s: string) {
    forall i :: 0 <= i < |s| ==> IsSpace(s[i])
  }
}
