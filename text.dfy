/** Java's 64-bit long, decimal rendering of numbers, Long.parseLong and String.replace. */
module Text {
  import opened Outcomes

  const LONG_MIN: int := -0x8000_0000_0000_0000
  const LONG_MAX: int := 0x7fff_ffff_ffff_ffff

  /** A Java `long` (ids and timestamps in the source are `Long`). */
  type Long = x: int | LONG_MIN <= x <= LONG_MAX

  predicate IsDigit(c: char) { '0' <= c <= '9' }

  predicate AllDigits(s: string) { forall i :: 0 <= i < |s| ==> IsDigit(s[i]) }

  function DigitChar(d: int): (c: char)
    requires 0 <= d < 10
    ensures IsDigit(c) && c as int - '0' as int == d
  {
    ('0' as int + d) as char
  }

  /** Decimal digits of n, most significant first and without leading zeros. */
  function NatToString(n: nat): (s: string)
    ensures 1 <= |s| && AllDigits(s)
    ensures |s| > 1 ==> s[0] != '0'
    decreases n
  {
    if n < 10 then [DigitChar(n)] else NatToString(n / 10) + [DigitChar(n % 10)]
  }

  /** Long.toString: a minus sign for negative values, then the digits. */
  function IntToString(n: int): (s: string)
    ensures 1 <= |s|
    ensures forall i :: 0 <= i < |s| ==> IsDigit(s[i]) || s[i] == '-'
  {
    if n < 0 then "-" + NatToString(-n) else NatToString(n)
  }

  /** The value of a string of decimal digits. */
  function DigitsValue(s: string): nat
    requires AllDigits(s)
  {
    if s == [] then 0 else DigitsValue(s[..|s| - 1]) * 10 + (s[|s| - 1] as int - '0' as int)
  }

  /** Long.parseLong (and Long.valueOf) over ASCII digits: an optional sign, one or
      more digits, and a value inside the range of long; anything else is a
      NumberFormatException. */
  function ParseLong(s: string): (r: Option<Long>)
    ensures r.Some? ==> 1 <= |s|
  {
    if s == [] then None
    else
      var neg := s[0] == '-';
      var digits := if s[0] == '-' || s[0] == '+' then s[1..] else s;
      if digits == [] || !AllDigits(digits) then None
      else
        var d: int := DigitsValue(digits);
        var v: int := if neg then 0 - d else d;
        if LONG_MIN <= v <= LONG_MAX then Some(v) else None
  }

  lemma {:induction false} DigitsValueOfNatToString(n: nat)
    ensures DigitsValue(NatToString(n)) == n
    decreases n
  {
    var s := NatToString(n);
    if n >= 10 {
      DigitsValueOfNatToString(n / 10);
      assert s[..|s| - 1] == NatToString(n / 10);
    }
  }

  /** Parsing what Long.toString printed gives the number back. */
  lemma ParseLongOfIntToString(n: Long)
    ensures ParseLong(IntToString(n)) == Some(n)
  {
    if n < 0 {
      var m: nat := 0 - (n as int);
      DigitsValueOfNatToString(m);
      assert IntToString(n)[1..] == NatToString(m);
    } else {
      DigitsValueOfNatToString(n);
    }
  }

  /** Rendering is injective: distinct numbers print differently. */
  lemma IntToStringInjective(a: Long, b: Long)
    requires IntToString(a) == IntToString(b)
    ensures a == b
  {
    ParseLongOfIntToString(a);
    ParseLongOfIntToString(b);
  }

  /** String.replace(target, ""): remove every non-overlapping occurrence of the
      target, scanning from left to right. */
  function RemoveAll(s: string, target: string): (r: string)
    ensures |r| <= |s|
    decreases |s|
  {
    if target == [] || s == [] then s
    else if |target| <= |s| && s[..|target|] == target then RemoveAll(s[|target|..], target)
    else [s[0]] + RemoveAll(s[1..], target)
  }

  /** A string that never contains the target's first character is left alone. */
  lemma {:induction false} RemoveAllAbsent(s: string, target: string)
    requires target != []
    requires forall i :: 0 <= i < |s| ==> s[i] != target[0]
    ensures RemoveAll(s, target) == s
    decreases |s|
  {
    if s != [] {
      assert s[0] != target[0];
      RemoveAllAbsent(s[1..], target);
    }
  }

  predicate StartsWith(s: string, prefix: string) { |prefix| <= |s| && s[..|prefix|] == prefix }
}
