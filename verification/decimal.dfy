/** Decimal text for 32-bit signed integers: the `int.ToString()` that
    `SaveSkill.Serialize` appends after the happy flag, and the `int.TryParse`
    that `SaveSkill.Deserialize` runs over the rest of the string. */
module Decimal {
  import opened Wrappers

  /** C#'s `int`. */
  type Int32 = x: int | -0x8000_0000 <= x <= 0x7FFF_FFFF

  predicate IsDigit(c: char) {
    '0' <= c <= '9'
  }

  predicate AllDigits(s: string) {
    forall i :: 0 <= i < |s| ==> IsDigit(s[i])
  }

  function DigitValue(c: char): (d: nat)
    requires IsDigit(c)
    ensures d < 10
  {
    c as int - '0' as int
  }

  function DigitChar(d: nat): (c: char)
    requires d < 10
    ensures IsDigit(c) && DigitValue(c) == d
  {
    ('0' as int + d) as char
  }

  /** The shortest decimal spelling of `n`: most significant digit first. */
  function NatToDigits(n: nat): (s: string)
    ensures |s| > 0 && AllDigits(s)
    ensures |s| > 1 ==> s[0] != '0'
  {
    if n < 10 then [DigitChar(n)] else NatToDigits(n / 10) + [DigitChar(n % 10)]
  }

  /** The number a non-empty run of decimal digits denotes. */
  function DigitsValue(s: string): nat
    requires AllDigits(s)
  {
    if |s| == 0 then 0 else DigitsValue(s[..|s| - 1]) * 10 + DigitValue(s[|s| - 1])
  }

  /** `int.ToString()` with the invariant culture: a minus sign before the
      digits of the magnitude of a negative number. */
  function IntToString(x: int): (s: string)
    ensures |s| > 0
    ensures x < 0 <==> s[0] == '-'
  {
    if x < 0 then "-" + NatToDigits(-x) else NatToDigits(x)
  }

  /** The white space `NumberStyles.Integer` lets a number be surrounded by:
      U+0009 to U+000D and U+0020. */
  predicate IsWhite(c: char) {
    c == ' ' || '\t' <= c <= '\r'
  }

  function TrimStart(s: string): (t: string)
    ensures |t| <= |s| && t == s[|s| - |t|..]
    ensures |t| > 0 ==> !IsWhite(t[0])
  {
    if |s| > 0 && IsWhite(s[0]) then TrimStart(s[1..]) else s
  }

  function TrimEnd(s: string): (t: string)
    ensures |t| <= |s| && t == s[..|t|]
    ensures |t| > 0 ==> !IsWhite(t[|t| - 1])
  {
    if |s| > 0 && IsWhite(s[|s| - 1]) then TrimEnd(s[..|s| - 1]) else s
  }

  /** The number `s` spells under `NumberStyles.Integer` (surrounding white
      space, an optional leading sign, then one or more digits), before the
      range check; `None` when `s` has any other shape. */
  function ParseInteger(s: string): Option<int> {
    var t := TrimEnd(TrimStart(s));
    if |t| > 0 && (t[0] == '-' || t[0] == '+') then
      var body := t[1..];
      if |body| > 0 && AllDigits(body) then
        var magnitude: int := DigitsValue(body);
        Some(if t[0] == '-' then -magnitude else magnitude)
      else None
    else if |t| > 0 && AllDigits(t) then Some(DigitsValue(t))
    else None
  }

  /** `int.TryParse(s, out v)` followed by a read of `v`: the parsed number
      when `s` is well formed and fits in 32 bits, 0 on every failure. */
  function TryParse(s: string): (v: Int32)
    ensures ParseInteger(s).Some? && -0x8000_0000 <= ParseInteger(s).value <= 0x7FFF_FFFF
            ==> v == ParseInteger(s).value
    ensures (ParseInteger(s).None? || ParseInteger(s).value < -0x8000_0000 || ParseInteger(s).value > 0x7FFF_FFFF)
            ==> v == 0
  {
    match ParseInteger(s)
    case Some(n) => if -0x8000_0000 <= n <= 0x7FFF_FFFF then n else 0
    case None => 0
  }

  /** Reading back the digits `NatToDigits` writes gives the number again. */
  lemma {:induction false} DigitsRoundTrip(n: nat)
    ensures DigitsValue(NatToDigits(n)) == n
  {
    if n >= 10 {
      var s := NatToDigits(n);
      var prefix := NatToDigits(n / 10);
      assert s == prefix + [DigitChar(n % 10)];
      assert s[..|s| - 1] == prefix;
      DigitsRoundTrip(n / 10);
    }
  }

  /** A string with no white space at either end is its own trim. */
  lemma TrimUntouched(s: string)
    requires |s| > 0 && !IsWhite(s[0]) && !IsWhite(s[|s| - 1])
    ensures TrimEnd(TrimStart(s)) == s
  {
  }

  /** A run of digits parses to the number it spells. */
  lemma ParseDigits(t: string)
    requires |t| > 0 && AllDigits(t)
    ensures ParseInteger(t) == Some(DigitsValue(t))
  {
    TrimUntouched(t);
  }

  /** A minus sign followed by a run of digits parses to the negated number. */
  lemma ParseNegative(t: string)
    requires |t| > 1 && t[0] == '-' && AllDigits(t[1..])
    ensures ParseInteger(t) == Some(-(DigitsValue(t[1..]) as int))
  {
    var body := t[1..];
    assert !IsWhite(t[|t| - 1]) by {
      assert t[|t| - 1] == body[|body| - 1];
    }
    assert TrimEnd(TrimStart(t)) == t by {
      TrimUntouched(t);
    }
    assert |body| > 0 && AllDigits(body);
  }

  /** `int.TryParse` reads back every 32-bit number `int.ToString` writes. */
  lemma TryParseIntToString(x: Int32)
    ensures TryParse(IntToString(x)) == x
  {
    var s := IntToString(x);
    assert ParseInteger(s) == Some(x as int) by {
      if x < 0 {
        var m: nat := -(x as int);
        assert s == "-" + NatToDigits(m);
        assert s[1..] == NatToDigits(m);
        DigitsRoundTrip(m);
        ParseNegative(s);
      } else {
        var m: nat := x as int;
        assert s == NatToDigits(m);
        DigitsRoundTrip(m);
        ParseDigits(s);
      }
    }
  }

  /** The empty string and a string of white space are not numbers, and
      parse to 0. */
  lemma TryParseBlank(s: string)
    requires forall i :: 0 <= i < |s| ==> IsWhite(s[i])
    ensures ParseInteger(s).None? && TryParse(s) == 0
  {
    assert |TrimStart(s)| == 0;
  }
}
