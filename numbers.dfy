/** Python's int(text) and str(n) on base-10 integers, as the year filter of the
    catalog search uses them: `y = int(year)` then `str(y - 1)`, `str(y)`, `str(y + 1)`. */
module Numbers {
  import opened Requests

  predicate IsDigit(c: char) {
    '0' <= c <= '9'
  }

  function DigitChar(d: nat): (c: char)
    requires d < 10
    ensures IsDigit(c)
  {
    ('0' as int + d) as char
  }

  /** Python's int() accepts digits with single underscores between them
      (`int('1_999') == 1999`) and leading zeros (`int('0099') == 99`). */
  predicate DigitGroups(s: string) {
    && |s| > 0
    && IsDigit(s[0])
    && IsDigit(s[|s| - 1])
    && (forall i :: 0 <= i < |s| ==> IsDigit(s[i]) || s[i] == '_')
    && (forall i :: 0 <= i < |s| - 1 && s[i] == '_' ==> s[i + 1] != '_')
  }

  /** Value of the digits of s, read left to right, underscores skipped. */
  function DigitsValue(s: string): nat {
    if s == [] then 0
    else if IsDigit(s[|s| - 1]) then DigitsValue(s[..|s| - 1]) * 10 + (s[|s| - 1] as int - '0' as int)
    else DigitsValue(s[..|s| - 1])
  }

  /** Python's int(text) on text already stripped of white space; None where
      Python raises ValueError for want of an optional sign and digit groups.
      Only ASCII digits are read, and texts of any length. */
  function ParseInt(text: string): (r: Option<int>)
    ensures r.Some? ==> forall i :: 0 <= i < |text| ==>
              IsDigit(text[i]) || text[i] == '_' || (i == 0 && (text[i] == '+' || text[i] == '-'))
    ensures r.Some? && r.value < 0 ==> |text| > 0 && text[0] == '-'
  {
    if |text| > 0 && (text[0] == '+' || text[0] == '-') then
      if DigitGroups(text[1..]) then
        var magnitude: int := DigitsValue(text[1..]);
        Some(if text[0] == '-' then -magnitude else magnitude)
      else None
    else if DigitGroups(text) then Some(DigitsValue(text))
    else None
  }

  function NatToString(n: nat): (s: string)
    ensures |s| > 0 && forall i :: 0 <= i < |s| ==> IsDigit(s[i])
  {
    if n < 10 then [DigitChar(n)] else NatToString(n / 10) + [DigitChar(n % 10)]
  }

  /** Python's str(n) on an int. */
  function IntToString(n: int): (s: string)
    ensures |s| > 0 && (s[0] == '-' <==> n < 0)
  {
    if n < 0 then "-" + NatToString(-n) else NatToString(n)
  }

  lemma {:induction false} NatToStringValue(n: nat)
    ensures DigitsValue(NatToString(n)) == n
  {
    var s := NatToString(n);
    if n >= 10 {
      NatToStringValue(n / 10);
      assert s[..|s| - 1] == NatToString(n / 10);
    }
  }

  /** Reading back what str() printed gives the number: int(str(n)) == n. */
  lemma {:induction false} ParseIntToString(n: int)
    ensures ParseInt(IntToString(n)) == Some(n)
  {
    var m: nat := if n < 0 then -n else n;
    var digits := NatToString(m);
    NatToStringValue(m);
    assert DigitGroups(digits);
    if n < 0 {
      assert IntToString(n)[1..] == digits;
    }
  }

  /** Hence str() is one-to-one: distinct years print differently. */
  lemma IntToStringInjective(a: int, b: int)
    requires IntToString(a) == IntToString(b)
    ensures a == b
  {
    ParseIntToString(a);
    ParseIntToString(b);
  }
}
