/**
 * POSIX path helpers with the semantics of Python's `os.path` (`basename`,
 * `dirname`, `splitext`) and of `pathlib.PurePosixPath(p).suffix`.
 */
module Paths {
  import opened Wrappers
  import opened Strings

  /** `os.path.basename(p)`: the text after the last `/`. */
  function Basename(p: string): (r: string)
    ensures '/' !in r
    ensures EndsWith(p, r)
    ensures r == p || p[|p| - |r| - 1] == '/'
    ensures '/' !in p ==> r == p
  {
    match RFindChar(p, '/')
    case None => p
    case Some(i) =>
      assert p[|p| - |p[i + 1..]|..] == p[i + 1..];
      p[i + 1..]
  }

  function RStripSlashes(s: string): (r: string)
    ensures StartsWith(s, r)
    ensures |r| == 0 || r[|r| - 1] != '/'
  {
    if |s| > 0 && s[|s| - 1] == '/' then
      var r := RStripSlashes(s[..|s| - 1]);
      assert s[..|s| - 1][..|r|] == s[..|r|];
      r
    else s
  }

  /** `os.path.dirname(p)`: the text before the last `/`, trailing slashes dropped unless it is all slashes. */
  function Dirname(p: string): (r: string)
    ensures '/' !in p ==> r == ""
    ensures StartsWith(p, r)
  {
    match RFindChar(p, '/')
    case None => ""
    case Some(i) =>
      var head := p[..i + 1];
      var stripped := RStripSlashes(head);
      assert head[..|stripped|] == p[..|stripped|];
      if stripped == "" then head else stripped
  }

  /** The directory of `dir/name` is `dir`, when `dir` does not end with a slash. */
  lemma DirnameOfChild(dir: string, name: string)
    requires |dir| > 0 && dir[|dir| - 1] != '/' && '/' !in name
    ensures Dirname(dir + "/" + name) == dir
  {
    var p := dir + "/" + name;
    assert p[|dir|] == '/';
    forall j | |dir| < j < |p| ensures p[j] != '/' {
      assert p[j] == name[j - |dir| - 1];
    }
    assert RFindChar(p, '/') == Some(|dir|);
    var head := p[..|dir| + 1];
    assert head[..|head| - 1] == dir;
    assert RStripSlashes(head) == RStripSlashes(dir) == dir;
  }

  /** Some character of `p[from..to]` is not a dot. */
  predicate HasNonDot(p: string, from: int, to: int)
    requires 0 <= from && to <= |p|
  {
    exists k :: from <= k < to && p[k] != '.'
  }

  /**
   * `os.path.splitext(p)`: `(root, ext)` where `ext` starts at the last dot
   * of the last path component, unless that component is dots up to it
   * (so `.bashrc` has no extension).
   */
  function Splitext(p: string): (r: (string, string))
    ensures r.0 + r.1 == p
    ensures r.1 == "" || (r.1[0] == '.' && '/' !in r.1 && '.' !in r.1[1..])
  {
    var sepIndex: int := match RFindChar(p, '/') case Some(i) => i case None => -1;
    match RFindChar(p, '.')
    case None => (p, "")
    case Some(dot) =>
      if dot > sepIndex && HasNonDot(p, sepIndex + 1, dot) then
        assert p == p[..dot] + p[dot..];
        (p[..dot], p[dot..])
      else (p, "")
  }

  /** A root followed by a dotted extension that holds no further dot or slash splits back into the two. */
  lemma SplitextOfExtension(stem: string, ext: string)
    requires |ext| >= 1 && ext[0] == '.' && '.' !in ext[1..] && '/' !in ext
    requires |Basename(stem)| > 0 && Basename(stem)[|Basename(stem)| - 1] != '.'
    ensures Splitext(stem + ext) == (stem, ext)
  {
    var p := stem + ext;
    var b := Basename(stem);
    var dot := |stem|;
    assert p[dot] == '.';
    forall j | dot < j < |p| ensures p[j] != '.' && p[j] != '/' {
      assert p[j] == ext[1..][j - dot - 1];
    }
    assert RFindChar(p, '.') == Some(dot);
    var lastNonDot := |stem| - 1;
    assert stem[lastNonDot] == b[|b| - 1];
    assert p[lastNonDot] != '.';
    match RFindChar(stem, '/')
    case None =>
      assert RFindChar(p, '/').None? by {
        forall k | 0 <= k < |p| ensures p[k] != '/' {
          if k < |stem| { assert stem[k] != '/'; } else { assert ext[k - |stem|] != '/'; }
        }
      }
      assert HasNonDot(p, 0, dot);
    case Some(i) =>
      assert b == stem[i + 1..];
      assert i < lastNonDot;
      assert p[i] == '/';
      forall j | i < j < |p| ensures p[j] != '/' {
        if j < |stem| { assert stem[j] != '/'; } else { assert ext[j - |stem|] != '/'; }
      }
      assert RFindChar(p, '/') == Some(i);
      assert HasNonDot(p, i + 1, dot);
  }

  /** `PurePosixPath(p).suffix`: the last dotted suffix of the final component, if it is neither leading nor trailing. */
  function Suffix(p: string): (r: string)
    ensures r == "" || (r[0] == '.' && '.' !in r[1..] && |r| >= 2)
  {
    var name := Basename(RStripSlashes(p));
    match RFindChar(name, '.')
    case None => ""
    case Some(i) => if 0 < i < |name| - 1 then name[i..] else ""
  }
}
