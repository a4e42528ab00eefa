/**
 * Base-10 rendering and parsing of integers: `str(int)` and `int(str)` as the
 * Integer type uses them.
 */
module Decimal {
  import opened Wrappers

  predicate IsDigit(c: char) { '0' <= c <= '9' }

  predicate AllDigits(s: string) { forall i :: 0 <= i < |s| ==> IsDigit(s[i]) }

  function DigitChar(d: nat): (c: char)
    requires d < 10
    ensures IsDigit(c) && c as int - '0' as int == d
  {
    ('0' as int + d) as char
  }

  function DigitValue(c: char): (d: nat)
    requires IsDigit(c)
    ensures d < 10
  {
    c as int - '0' as int
  }

  /** The decimal digits of a natural number, without leading zeros. */
  function NatToString(n: nat): (s: string)
    ensures |s| > 0 && AllDigits(s)
    ensures s[0] == '0' <==> n == 0
    ensures n < 10 <==> |s| == 1
  {
    if n < 10 then [DigitChar(n)] else NatToString(n / 10) + [DigitChar(n % 10)]
  }

  /** The number a string of decimal digits denotes (most significant first). */
  function DigitsValue(s: string): nat
    requires AllDigits(s)
  {
    if s == [] then 0 else DigitsValue(s[..|s| - 1]) * 10 + DigitValue(s[|s| - 1])
  }

  /** `str(i)`: an optional minus sign followed by the digits of `|i|`. */
  function Render(i: int): (s: string)
    ensures |s| > 0 && (s[0] == '-' || IsDigit(s[0]))
    ensures s[0] == '-' <==> i < 0
    ensures forall k :: 0 < k < |s| ==> IsDigit(s[k])
    ensures s == "0" <==> i == 0
  {
    if i < 0 then "-" + NatToString(-i) else NatToString(i)
  }

  /** Python's `str.strip()` whitespace characters. */
  predicate IsSpace(c: char)
  {
    c == ' ' || c == '\t' || c == '\n' || c == '\r' || c == '\U{000B}' || c == '\U{000C}'
  }

  function TrimLeft(s: string): (t: string)
    ensures |t| <= |s| && t == s[|s| - |t|..]
    ensures t == [] || !IsSpace(t[0])
  {
    if s != [] && IsSpace(s[0]) then TrimLeft(s[1..]) else s
  }

  function TrimRight(s: string): (t: string)
    ensures |t| <= |s| && t == s[..|t|]
    ensures t == [] || !IsSpace(t[|t| - 1])
  {
    if s != [] && IsSpace(s[|s| - 1]) then TrimRight(s[..|s| - 1]) else s
  }

  function Strip(s: string): string
  {
    TrimRight(TrimLeft(s))
  }

  /** The part of a stripped numeral after an optional sign. */
  function Unsigned(t: string): string
  {
    if t != [] && (t[0] == '-' || t[0] == '+') then t[1..] else t
  }

  /** The digits of a stripped numeral: after the sign, blanks are skipped too. */
  function Body(t: string): string
  {
    TrimLeft(Unsigned(t))
  }

  /**
   * `int(s)` for a byte string in base 10: surrounding whitespace is ignored,
   * then an optional sign, optional whitespace and at least one decimal
   * digit; anything else is a ValueError (None).
   */
  function Parse(s: string): (r: Option<int>)
    ensures r.Some? <==> Body(Strip(s)) != [] && AllDigits(Body(Strip(s)))
  {
    var t := Strip(s);
    var body := Body(t);
    if body == [] || !AllDigits(body) then None
    else
      var n: int := DigitsValue(body);
      if t[0] == '-' then Some(-n) else Some(n)
  }

  lemma {:induction false} DigitsOfNat(n: nat)
    ensures DigitsValue(NatToString(n)) == n
  {
    if n >= 10 {
      var s := NatToString(n);
      assert s[..|s| - 1] == NatToString(n / 10);
      DigitsOfNat(n / 10);
    }
  }

  lemma StripOfRender(i: int)
    ensures Strip(Render(i)) == Render(i)
  {
    var s := Render(i);
    assert !IsSpace(s[0]) && !IsSpace(s[|s| - 1]);
    assert TrimLeft(s) == s;
  }

  lemma UnsignedOfRender(i: int)
    ensures Unsigned(Render(i)) == NatToString(if i < 0 then -i else i)
    ensures Render(i)[0] == '-' <==> i < 0
  {
    var s := Render(i);
    if i < 0 {
      assert s[1..] == NatToString(-i);
    } else {
      assert s[0] != '-' && s[0] != '+';
    }
  }

  lemma TrimmedDigits(d: string)
    requires d != [] && IsDigit(d[0])
    ensures TrimLeft(d) == d
  {
  }

  lemma BodyOfRender(i: int)
    ensures Body(Render(i)) == NatToString(if i < 0 then -i else i)
  {
    UnsignedOfRender(i);
    TrimmedDigits(Unsigned(Render(i)));
  }

  /** Rendering an integer and parsing the text back gives the integer. */
  lemma {:induction false} ParseRender(i: int)
    ensures Parse(Render(i)) == Some(i)
  {
    var n: nat := if i < 0 then -i else i;
    StripOfRender(i);
    UnsignedOfRender(i);
    BodyOfRender(i);
    DigitsOfNat(n);
  }
}
