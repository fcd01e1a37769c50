/**
 * The category-key pattern `^C(\|.*)?$` that removal and renaming build from a
 * category path `C`, with `|` escaped and nothing else.  Matching follows
 * Python's `re`: `.` does not match a newline, and `$` matches at the end or
 * just before a final newline.  The model covers categories that hold no other
 * regular-expression metacharacter, so `C` stands for itself.  The
 * replacement is any template `re` accepts.
 */
module CategoryPattern {
  import opened Strings
  import opened Replacement

  /** `C` holds no metacharacter that escaping only `|` would leave active, and no newline. */
  predicate Literal(c: string) {
    forall i :: 0 <= i < |c| ==> c[i] !in ".^$*+?{}[]\\()\n"
  }

  /** What `(\|.*)?$` accepts after the literal prefix. */
  predicate TailMatches(t: string) {
    t == "" || t == "\n"
    || (|t| >= 1 && t[0] == '|' && '\n' !in t[1..])
    || (|t| >= 2 && t[0] == '|' && '\n' !in t[1..|t| - 1] && t[|t| - 1] == '\n')
  }

  /** `re.match(pattern, key)` succeeds. */
  predicate KeyMatches(c: string, key: string)
    requires Literal(c)
  {
    StartsWith(key, c) && TailMatches(key[|c|..])
  }

  /** The text a match of `^C(\|.*)?$` covers: the key without a final newline. */
  function MatchText(key: string): string {
    if |key| > 0 && key[|key| - 1] == '\n' then key[..|key| - 1] else key
  }

  /**
   * `re.sub(pattern, repl, key)` with `repl` already read as template `t`: a
   * matching key is replaced by the template's text for the match, keeping a
   * final newline the match stopped before; any other key is returned as is.
   */
  function Substitute(c: string, t: Template, key: string): (r: string)
    requires Literal(c)
    ensures !KeyMatches(c, key) ==> r == key
    ensures KeyMatches(c, key) && '\n' !in key ==> r == Expand(t, key, key[|c|..])
    ensures KeyMatches(c, key) ==>
      var m := MatchText(key);
      |c| <= |m| && r == Expand(t, m, m[|c|..]) + key[|m|..]
  {
    if KeyMatches(c, key) then
      var m := MatchText(key);
      assert |c| <= |m| by {
        if |key| > 0 && key[|key| - 1] == '\n' {
          var tl := key[|c|..];
          assert tl[|tl| - 1] == '\n';
          assert tl == "\n" || (|tl| >= 2 && tl[0] == '|');
        }
      }
      Expand(t, m, m[|c|..]) + key[|m|..]
    else key
  }

  /** For keys without newlines the pattern means: the category itself or one of its descendants. */
  lemma MatchesNewlineFree(c: string, key: string)
    requires Literal(c) && '\n' !in key
    ensures KeyMatches(c, key) <==> key == c || StartsWith(key, c + "|")
  {
    if StartsWith(key, c + "|") {
      assert key[..|c|] == (c + "|")[..|c|];
    }
    if StartsWith(key, c) {
      var t := key[|c|..];
      assert key == c + t;
      forall i | 0 <= i < |t| ensures t[i] != '\n' {
        assert t[i] == key[|c| + i];
      }
      if |t| >= 1 {
        forall i | 0 <= i < |t| - 1 ensures t[1..][i] != '\n' {
          assert t[1..][i] == t[i + 1];
        }
      }
      if StartsWith(key, c + "|") {
        assert t[0] == (c + "|")[|c|];
      }
      if |t| >= 1 && t[0] == '|' {
        assert key[..|c| + 1] == c + "|";
      }
    }
  }

  /** Every descendant key `C|rest` is renamed to the template's text for that key, with group 1 the `|rest` part. */
  lemma SubstituteDescendant(c: string, t: Template, rest: string)
    requires Literal(c) && '\n' !in c && '\n' !in rest
    ensures Substitute(c, t, c + "|" + rest) == Expand(t, c + "|" + rest, "|" + rest)
  {
    var key := c + "|" + rest;
    assert key[..|c|] == c;
    assert key[|c|..] == "|" + rest;
    assert ("|" + rest)[1..] == rest;
    assert '\n' !in key by {
      forall i | 0 <= i < |key| ensures key[i] != '\n' {
        if i < |c| { assert key[i] == c[i]; } else if i > |c| { assert key[i] == rest[i - |c| - 1]; }
      }
    }
  }

  /** With a plain new name, every descendant is renamed to exactly that name. */
  lemma SubstitutePlainDescendant(c: string, repl: string, rest: string)
    requires Literal(c) && '\n' !in c && '\n' !in rest && '\\' !in repl
    ensures Parse(repl).Ok?
    ensures Substitute(c, Parse(repl).value, c + "|" + rest) == repl
  {
    PlainParses(repl, c + "|" + rest, "|" + rest);
    SubstituteDescendant(c, Parse(repl).value, rest);
  }

  /** A new name ending in `\1` keeps each descendant's suffix: `C|rest` becomes `a|rest`. */
  lemma SubstituteTailDescendant(c: string, a: string, rest: string)
    requires Literal(c) && '\n' !in c && '\n' !in rest && '\\' !in a
    ensures Parse(a + "\\1").Ok?
    ensures Substitute(c, Parse(a + "\\1").value, c + "|" + rest) == a + "|" + rest
  {
    TailReference(a, c + "|" + rest, "|" + rest);
    SubstituteDescendant(c, Parse(a + "\\1").value, rest);
  }
}
