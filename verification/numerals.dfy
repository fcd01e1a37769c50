/**
 * Python's `str(int)`, `int(str)` and `str.zfill` on ASCII decimal text.
 * `int()` is modelled for an optional sign followed by decimal digits; the
 * surrounding whitespace and the `_` separators Python also accepts are not.
 */
module Numerals {
  import opened Wrappers

  predicate IsDigit(c: char) {
    '0' <= c <= '9'
  }

  predicate AllDigits(s: string) {
    forall i :: 0 <= i < |s| ==> IsDigit(s[i])
  }

  function DigitChar(d: nat): (c: char)
    requires d < 10
    ensures IsDigit(c)
  {
    ('0' as int + d) as char
  }

  function DigitValue(c: char): (d: nat)
    requires IsDigit(c)
    ensures d < 10 && DigitChar(d) == c
  {
    c as int - '0' as int
  }

  /** The decimal value of a run of digits (leading zeros allowed, the empty run is 0). */
  function ParseDigits(s: string): nat
    requires AllDigits(s)
  {
    if |s| == 0 then 0 else ParseDigits(s[..|s| - 1]) * 10 + DigitValue(s[|s| - 1])
  }

  /** `str(n)` for a natural number: shortest decimal text. */
  function NatToString(n: nat): (r: string)
    ensures |r| >= 1 && AllDigits(r)
    ensures |r| > 1 ==> r[0] != '0'
  {
    if n < 10 then [DigitChar(n)] else NatToString(n / 10) + [DigitChar(n % 10)]
  }

  lemma {:induction false} ParseNatToString(n: nat)
    ensures ParseDigits(NatToString(n)) == n
    decreases n
  {
    if n >= 10 {
      var s := NatToString(n);
      assert s[..|s| - 1] == NatToString(n / 10);
      ParseNatToString(n / 10);
    }
  }

  /** `str(i)`. */
  function IntToString(i: int): (r: string)
    ensures |r| >= 1
    ensures i >= 0 ==> AllDigits(r)
    ensures i < 0 ==> r[0] == '-' && AllDigits(r[1..])
  {
    if i < 0 then "-" + NatToString(-i) else NatToString(i)
  }

  /** `int(s)`: an optional sign then at least one digit; anything else raises ValueError. */
  function ParseInt(s: string): Option<int> {
    if |s| >= 2 && s[0] == '-' && AllDigits(s[1..]) then Some(0 - ParseDigits(s[1..]) as int)
    else if |s| >= 2 && s[0] == '+' && AllDigits(s[1..]) then Some(ParseDigits(s[1..]))
    else if |s| >= 1 && AllDigits(s) then Some(ParseDigits(s))
    else None
  }

  /** `int(str(i)) == i`. */
  lemma ParseIntToString(i: int)
    ensures ParseInt(IntToString(i)) == Some(i)
  {
    var t := IntToString(i);
    if i < 0 {
      var u := NatToString(-i);
      assert t[1..] == u;
      ParseNatToString(-i);
      assert ParseDigits(t[1..]) == -i;
    } else {
      ParseNatToString(i);
      assert IsDigit(t[0]);
      assert ParseDigits(t) == i;
    }
  }

  function Zeros(n: nat): (r: string)
    ensures |r| == n && AllDigits(r)
    ensures forall i :: 0 <= i < n ==> r[i] == '0'
  {
    seq(n, _ => '0')
  }

  /** `s.zfill(width)`: pads with zeros after any leading sign up to `width` characters. */
  function ZFill(s: string, width: int): (r: string)
    ensures |r| == if |s| >= width then |s| else width
  {
    if |s| >= width then s
    else if |s| > 0 && (s[0] == '-' || s[0] == '+') then [s[0]] + Zeros(width - |s|) + s[1..]
    else Zeros(width - |s|) + s
  }

  lemma {:induction false} ParseLeadingZeros(z: nat, s: string)
    requires AllDigits(s)
    ensures AllDigits(Zeros(z) + s) && ParseDigits(Zeros(z) + s) == ParseDigits(s)
    decreases |s|
  {
    var t := Zeros(z) + s;
    if |s| == 0 {
      assert t == Zeros(z);
      ZerosParse(z);
    } else {
      assert t[..|t| - 1] == Zeros(z) + s[..|s| - 1];
      ParseLeadingZeros(z, s[..|s| - 1]);
    }
  }

  lemma {:induction false} ZerosParse(z: nat)
    ensures ParseDigits(Zeros(z)) == 0
    decreases z
  {
    if z > 0 {
      assert Zeros(z)[..z - 1] == Zeros(z - 1);
      ZerosParse(z - 1);
    }
  }

  /** Zero padding keeps the value: `int(str(i).zfill(w)) == i`. */
  lemma ZFillKeepsValue(i: int, width: int)
    ensures ParseInt(ZFill(IntToString(i), width)) == Some(i)
  {
    var s := IntToString(i);
    ParseIntToString(i);
    if |s| < width {
      var z := width - |s|;
      if i < 0 {
        var r := ZFill(s, width);
        assert r[1..] == Zeros(z) + s[1..];
        ParseLeadingZeros(z, s[1..]);
        assert s[1..] == NatToString(-i);
        ParseNatToString(-i);
      } else {
        ParseLeadingZeros(z, s);
        ParseNatToString(i);
      }
    }
  }

  /** `math.ceil(a / b)` for a non-zero divisor, with exact division. */
  function CeilDiv(a: int, b: int): (q: int)
    requires b != 0
    ensures b > 0 ==> (q - 1) * b < a <= q * b
  {
    if b > 0 then (a + b - 1) / b else -((-a) as real / b as real).Floor
  }

  /** Quotient and remainder are the only pair with `n == q * c + r` and `0 <= r < c`. */
  lemma DivModUnique(n: int, c: int, q: int, r: int)
    requires c > 0 && 0 <= r < c && n == q * c + r
    ensures n / c == q && n % c == r
  {
    var q' := n / c;
    var r' := n % c;
    assert (q - q') * c == r' - r;
    if q > q' {
      MulAtLeast(q - q', c);
    } else if q < q' {
      MulAtLeast(q' - q, c);
    }
  }

  lemma MulAtLeast(k: int, c: int)
    requires k >= 1 && c > 0
    ensures k * c >= c
  {
  }

  /** Multiplying by a positive number keeps the order of the factors. */
  lemma MulOrder(a: int, b: int, c: int)
    requires c > 0
    ensures a <= b <==> a * c <= b * c
  {
    assert b * c - a * c == (b - a) * c;
    if a > b {
      MulAtLeast(a - b, c);
    }
  }
}
