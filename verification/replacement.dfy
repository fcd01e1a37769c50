/**
 * The replacement text of `re.sub`, read as Python's `re` module (3.12) reads
 * a template: a backslash starts an escape or a group reference, and an
 * ill-formed template raises before any text is substituted.  The templates
 * here are used with a pattern holding one group, so the only groups a
 * template can name are 0 (the whole match) and 1.
 */
module Replacement {
  import opened Wrappers
  import opened Numerals

  /** A piece of a parsed template: literal text, the whole match, or group 1 (empty when it took no part). */
  datatype Piece = Lit(text: string) | Whole | Tail

  type Template = seq<Piece>

  /** The text a template gives for a match whose whole text and group 1 are given. */
  function Expand(t: Template, whole: string, tail: string): string {
    if |t| == 0 then ""
    else (match t[0] case Lit(x) => x case Whole => whole case Tail => tail) + Expand(t[1..], whole, tail)
  }

  /** A template that names no group gives the same text for every match. */
  predicate Constant(t: Template) {
    forall i :: 0 <= i < |t| ==> t[i].Lit?
  }

  lemma {:induction false} ConstantExpand(t: Template, whole: string, tail: string)
    requires Constant(t)
    ensures Expand(t, whole, tail) == Expand(t, "", "")
    decreases |t|
  {
    if |t| > 0 {
      ConstantExpand(t[1..], whole, tail);
    }
  }

  /** The tokenizer reads one token ahead, so a backslash with nothing after it raises as soon as it is reached. */
  function Ahead(rest: string): (r: Result<string>)
    ensures r.Ok? <==> rest != "\\"
    ensures r.Ok? ==> r.value == rest
  {
    if rest == "\\" then Err(ReError("bad escape (end of pattern)")) else Ok(rest)
  }

  predicate IsOctal(c: char) {
    '0' <= c <= '7'
  }

  predicate IsAsciiLetter(c: char) {
    'a' <= c <= 'z' || 'A' <= c <= 'Z'
  }

  /** `str.isidentifier` for ASCII names: a letter or `_`, then letters, digits and `_`. */
  predicate IsIdentifier(name: string) {
    |name| > 0 && (IsAsciiLetter(name[0]) || name[0] == '_')
    && forall i :: 0 < i < |name| ==> IsAsciiLetter(name[i]) || IsDigit(name[i]) || name[i] == '_'
  }

  /** The escapes `\a \b \f \n \r \t \v \\` and the one character each stands for. */
  function SimpleEscape(c: char): Option<char> {
    match c
    case 'a' => Some(7 as char)
    case 'b' => Some(8 as char)
    case 'f' => Some(12 as char)
    case 'n' => Some('\n')
    case 'r' => Some('\r')
    case 't' => Some('\t')
    case 'v' => Some(11 as char)
    case '\\' => Some('\\')
    case _ => None
  }

  /** A reference to group `index`: only 0 and 1 exist. */
  function GroupRef(index: nat): (r: Result<Piece>)
    ensures r.Ok? <==> index <= 1
    ensures r == Ok(Whole) <==> index == 0
    ensures r == Ok(Tail) <==> index == 1
  {
    if index == 0 then Ok(Whole)
    else if index == 1 then Ok(Tail)
    else Err(ReError("invalid group reference"))
  }

  /**
   * The name inside `\g<...>`, read token by token up to `>`.  Returns the name
   * and what follows the `>`.
   */
  function GroupName(s: string, acc: string): (r: Result<(string, string)>)
    ensures r.Ok? ==> |r.value.1| < |s| && |r.value.0| > 0 && r.value.1 != "\\"
    decreases |s|
  {
    if |s| == 0 then Err(ReError(if acc == "" then "missing group name" else "missing >, unterminated name"))
    else
      var n := if s[0] == '\\' && |s| >= 2 then 2 else 1;
      var rest :- Ahead(s[n..]);
      if s[..n] == ">" then
        if acc == "" then Err(ReError("missing group name")) else Ok((acc, rest))
      else GroupName(rest, acc + s[..n])
  }

  /** `\g<name>`: ASCII digits name a group by number; an identifier names no group of this pattern. */
  function NamedGroup(name: string): (r: Result<Piece>)
    requires |name| > 0
    ensures AllDigits(name) ==> r == GroupRef(ParseDigits(name))
    ensures !AllDigits(name) ==> r.Err?
    ensures IsIdentifier(name) ==> r.Err? && r.error.IndexError?
  {
    if AllDigits(name) then GroupRef(ParseDigits(name))
    else if IsIdentifier(name) then Err(IndexError("unknown group name"))
    else Err(ReError("bad character in group name"))
  }

  /** The value of three octal digits. */
  function OctalValue(a: char, b: char, c: char): nat
    requires IsOctal(a) && IsOctal(b) && IsOctal(c)
  {
    64 * (a as int - '0' as int) + 8 * (b as int - '0' as int) + (c as int - '0' as int)
  }

  /** `\g<name>`, given the text after `\g`. */
  function NamedEscape(rest: string): (r: Result<(Piece, string)>)
    requires rest != "\\"
    ensures r.Ok? ==> |r.value.1| <= |rest| && r.value.1 != "\\" && !r.value.0.Lit?
  {
    if |rest| > 0 && rest[0] == '<' then
      var after :- Ahead(rest[1..]);
      var named :- GroupName(after, "");
      var p :- NamedGroup(named.0);
      Ok((p, named.1))
    else Err(ReError("missing <"))
  }

  /**
   * A backslash and a digit: `\0` with up to two more octal digits, three
   * octal digits, or else a group number of one or two digits.
   */
  function DigitEscape(c: char, rest: string): (r: Result<(Piece, string)>)
    requires IsDigit(c) && rest != "\\"
    ensures r.Ok? ==> |r.value.1| <= |rest| && r.value.1 != "\\"
    ensures r.Ok? && r.value.0.Lit? ==> |r.value.0.text| == 1
    ensures c == '1' && (|rest| == 0 || !IsDigit(rest[0])) ==> r == Ok((Tail, rest))
  {
    if c == '0' then
      if |rest| > 0 && IsOctal(rest[0]) then
        var r1 :- Ahead(rest[1..]);
        if |r1| > 0 && IsOctal(r1[0]) then
          var r2 :- Ahead(r1[1..]);
          Ok((Lit([OctalValue('0', rest[0], r1[0]) as char]), r2))
        else Ok((Lit([OctalValue('0', '0', rest[0]) as char]), r1))
      else Ok((Lit([0 as char]), rest))
    else if |rest| > 0 && IsDigit(rest[0]) then
      var r1 :- Ahead(rest[1..]);
      if IsOctal(c) && IsOctal(rest[0]) && |r1| > 0 && IsOctal(r1[0]) then
        var r2 :- Ahead(r1[1..]);
        var v := OctalValue(c, rest[0], r1[0]);
        if v > 255 then Err(ReError("octal escape value outside of range 0-0o377"))
        else Ok((Lit([v as char]), r2))
      else
        var p :- GroupRef(10 * DigitValue(c) + DigitValue(rest[0]));
        Ok((p, r1))
    else
      var p :- GroupRef(DigitValue(c));
      Ok((p, rest))
  }

  /**
   * The piece a backslash and `c` begin, given the text after them; returns the
   * piece and the text left once it is read.
   */
  function EscapePiece(c: char, rest: string): (r: Result<(Piece, string)>)
    requires rest != "\\"
    ensures r.Ok? ==> |r.value.1| <= |rest| && r.value.1 != "\\"
    ensures r.Ok? && r.value.0.Lit? ==> |r.value.0.text| > 0
    ensures SimpleEscape(c).Some? ==> r == Ok((Lit([SimpleEscape(c).value]), rest))
    ensures SimpleEscape(c).None? && IsAsciiLetter(c) && c != 'g' ==> r.Err? && r.error.ReError?
    ensures !IsAsciiLetter(c) && !IsDigit(c) && c != '\\' ==> r == Ok((Lit(['\\', c]), rest))
    ensures c == '1' && (|rest| == 0 || !IsDigit(rest[0])) ==> r == Ok((Tail, rest))
  {
    if c == 'g' then NamedEscape(rest)
    else if IsDigit(c) then DigitEscape(c, rest)
    else match SimpleEscape(c)
      case Some(x) => Ok((Lit([x]), rest))
      case None =>
        if IsAsciiLetter(c) then Err(ReError("bad escape"))
        else Ok((Lit(['\\', c]), rest))
  }

  /** The template parser once the first token has been looked at. */
  function ParseRest(s: string): (r: Result<Template>)
    requires s != "\\"
    decreases |s|
  {
    if |s| == 0 then Ok([])
    else if s[0] != '\\' then
      var rest :- Ahead(s[1..]);
      var t :- ParseRest(rest);
      Ok([Lit([s[0]])] + t)
    else
      var rest :- Ahead(s[2..]);
      var step :- EscapePiece(s[1], rest);
      var t :- ParseRest(step.1);
      Ok([step.0] + t)
  }

  /** `re`'s reading of a replacement text: its pieces, or the error it raises. */
  function Parse(repl: string): (r: Result<Template>)
    ensures repl == "\\" ==> r.Err?
  {
    var s :- Ahead(repl);
    ParseRest(s)
  }

  /** Text with every backslash doubled: the replacement that inserts the text as it is. */
  function Quote(x: string): (r: string)
    ensures r != "\\"
    ensures |r| >= |x|
  {
    if |x| == 0 then ""
    else
      var head := if x[0] == '\\' then "\\\\" else [x[0]];
      assert (head + Quote(x[1..]))[0] == head[0];
      head + Quote(x[1..])
  }

  /** A literal piece in front of a constant template adds its text in front. */
  lemma ConsLit(x: string, t: Template)
    requires Constant(t)
    ensures Constant([Lit(x)] + t)
    ensures Expand([Lit(x)] + t, "", "") == x + Expand(t, "", "")
  {
    assert ([Lit(x)] + t)[1..] == t;
  }

  /** One plain character read at the front, then the rest of the template. */
  lemma PlainStep(s: string)
    requires |s| >= 1 && s[0] != '\\' && s[1..] != "\\"
    ensures ParseRest(s).Ok? <==> ParseRest(s[1..]).Ok?
    ensures ParseRest(s).Ok? ==> ParseRest(s).value == [Lit([s[0]])] + ParseRest(s[1..]).value
  {
  }

  /** Quoting works character by character. */
  lemma QuoteCons(x: string)
    requires |x| > 0
    ensures x[0] == '\\' ==> Quote(x) == "\\\\" + Quote(x[1..])
    ensures x[0] != '\\' ==> Quote(x) == [x[0]] + Quote(x[1..])
  {
  }

  /** A quoted text reads back as exactly that text, whatever the match. */
  lemma {:induction false} QuoteParses(x: string)
    ensures Parse(Quote(x)).Ok?
    ensures Constant(Parse(Quote(x)).value)
    ensures Expand(Parse(Quote(x)).value, "", "") == x
    decreases |x|
  {
    if |x| > 0 {
      var q := Quote(x);
      var rest := Quote(x[1..]);
      QuoteParses(x[1..]);
      assert Parse(rest) == ParseRest(rest);
      var t := ParseRest(rest).value;
      QuoteCons(x);
      if x[0] == '\\' {
        assert q[0] == '\\' && q[1] == '\\' && q[2..] == rest;
        EscapeStep(q);
        assert ParseRest(q) == Ok([Lit("\\")] + t);
        ConsLit("\\", t);
      } else {
        assert q[0] == x[0] && q[1..] == rest;
        PlainStep(q);
        assert ParseRest(q) == Ok([Lit([x[0]])] + t);
        ConsLit([x[0]], t);
      }
      assert Parse(q) == ParseRest(q);
      assert x == [x[0]] + x[1..];
    }
  }

  /** Text without backslashes needs no quoting. */
  lemma {:induction false} QuotePlain(x: string)
    requires '\\' !in x
    ensures Quote(x) == x
    decreases |x|
  {
    if |x| > 0 {
      assert x[0] in x;
      QuotePlain(x[1..]);
      assert x == [x[0]] + x[1..];
    }
  }

  /** A replacement without backslashes is inserted literally for every match. */
  lemma PlainParses(repl: string, whole: string, tail: string)
    requires '\\' !in repl
    ensures Parse(repl).Ok? && Constant(Parse(repl).value)
    ensures Expand(Parse(repl).value, whole, tail) == repl
  {
    QuotePlain(repl);
    QuoteParses(repl);
    ConstantExpand(Parse(repl).value, whole, tail);
  }

  /** Literal text in front of a template is read as itself and changes nothing after it. */
  lemma {:induction false} PlainPrefix(a: string, b: string, whole: string, tail: string)
    requires '\\' !in a && b != "\\" && a + b != "\\"
    ensures ParseRest(a + b).Ok? <==> ParseRest(b).Ok?
    ensures ParseRest(b).Ok? ==>
      Expand(ParseRest(a + b).value, whole, tail) == a + Expand(ParseRest(b).value, whole, tail)
    ensures ParseRest(b).Err? ==> ParseRest(a + b) == Err(ParseRest(b).error)
    decreases |a|
  {
    if |a| > 0 {
      var s := a + b;
      assert a[0] in a;
      assert s[0] == a[0];
      assert s[1..] == a[1..] + b;
      if |a| == 1 {
        assert s[1..] == b;
      } else {
        assert a[1] in a;
        assert s[1..][0] == a[1];
      }
      assert a[1..] + b != "\\" by {
        if |a| > 1 { assert a[1] in a; assert (a[1..] + b)[0] == a[1]; } else { assert a[1..] + b == b; }
      }
      PlainPrefix(a[1..], b, whole, tail);
      assert a == [a[0]] + a[1..];
    } else {
      assert a + b == b;
    }
  }

  /** One escape read at the front: the piece, then the rest of the template. */
  lemma EscapeStep(s: string)
    requires |s| >= 2 && s[0] == '\\' && s[2..] != "\\"
    ensures EscapePiece(s[1], s[2..]).Err? ==> ParseRest(s) == Err(EscapePiece(s[1], s[2..]).error)
    ensures EscapePiece(s[1], s[2..]).Ok? ==>
      var step := EscapePiece(s[1], s[2..]).value;
      (ParseRest(s).Ok? <==> ParseRest(step.1).Ok?)
      && (ParseRest(s).Ok? ==> ParseRest(s).value == [step.0] + ParseRest(step.1).value)
  {
  }

  /** `new\1` keeps group 1 after the literal part: descendants keep their suffix. */
  lemma TailReference(a: string, whole: string, tail: string)
    requires '\\' !in a
    ensures Parse(a + "\\1").Ok?
    ensures Expand(Parse(a + "\\1").value, whole, tail) == a + tail
  {
    var b := "\\1";
    assert b[0] == '\\' && b[1] == '1' && b[2..] == "";
    assert EscapePiece('1', "") == Ok((Tail, ""));
    EscapeStep(b);
    assert ParseRest("") == Ok([]);
    assert [Tail] + [] == [Tail];
    assert ParseRest(b) == Ok([Tail]);
    assert Expand([Tail], whole, tail) == tail;
    assert a + b != "\\" by {
      if |a| == 0 { assert a + b == b; } else { assert a[0] in a; assert (a + b)[0] == a[0]; }
    }
    PlainPrefix(a, b, whole, tail);
  }

  /** A known escape between plain texts stands for its one character. */
  lemma SimpleEscapeParses(a: string, c: char, z: string, whole: string, tail: string)
    requires '\\' !in a && '\\' !in z && SimpleEscape(c).Some?
    ensures Parse(a + ['\\', c] + z).Ok?
    ensures Expand(Parse(a + ['\\', c] + z).value, whole, tail) == a + [SimpleEscape(c).value] + z
  {
    var b := ['\\', c] + z;
    assert b[0] == '\\' && b[1] == c && b[2..] == z;
    assert z + "" == z;
    PlainPrefix(z, "", whole, tail);
    assert z != "\\" by { if |z| > 0 { assert z[0] in z; } }
    EscapeStep(b);
    var t := ParseRest(z).value;
    assert ([Lit([SimpleEscape(c).value])] + t)[1..] == t;
    assert a + b != "\\" by {
      if |a| == 0 { assert a + b == b; } else { assert a[0] in a; assert (a + b)[0] == a[0]; }
    }
    PlainPrefix(a, b, whole, tail);
    assert a + ['\\', c] + z == a + b;
  }

  /** A backslash before any other ASCII letter but `g` is an unknown escape, and `re.sub` raises `re.error`. */
  lemma BadEscapeRaises(a: string, c: char, z: string)
    requires '\\' !in a && '\\' !in z && IsAsciiLetter(c) && SimpleEscape(c).None? && c != 'g'
    ensures Parse(a + ['\\', c] + z).Err? && Parse(a + ['\\', c] + z).error.ReError?
  {
    var b := ['\\', c] + z;
    assert b[0] == '\\' && b[1] == c && b[2..] == z;
    assert z != "\\" by { if |z| > 0 { assert z[0] in z; } }
    EscapeStep(b);
    assert a + b != "\\" by {
      if |a| == 0 { assert a + b == b; } else { assert a[0] in a; assert (a + b)[0] == a[0]; }
    }
    PlainPrefix(a, b, "", "");
    assert a + ['\\', c] + z == a + b;
  }

  /** `C:\temp` holds the escape `\t`: the new name gets a tab where the text has `\t`. */
  lemma TabEscape()
    ensures Parse("C:\\temp").Ok?
    ensures Expand(Parse("C:\\temp").value, "", "") == "C:\temp"
  {
    assert "C:" + ['\\', 't'] + "emp" == "C:\\temp";
    assert "C:" + [SimpleEscape('t').value] + "emp" == "C:\temp";
    SimpleEscapeParses("C:", 't', "emp", "", "");
  }

  /** `C:\data` holds `\d`, which is no escape a template knows: `re.sub` raises `re.error`. */
  lemma BadEscape()
    ensures Parse("C:\\data").Err? && Parse("C:\\data").error.ReError?
  {
    BadEscapeRaises("C:", 'd', "ata");
    assert "C:" + ['\\', 'd'] + "ata" == "C:\\data";
  }
}
