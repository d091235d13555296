/**
 Decimal text of integers, as JavaScript's `String(n)` writes an integral
 number, together with the reading of such text back into a number. The two
 directions are each other's partner: every integer survives the round trip,
 and every canonical digit string is what `String` would write for its value.
 */
module Decimal {

  predicate IsDigit(c: char) {
    '0' <= c <= '9'
  }

  predicate AllDigits(s: string) {
    forall i :: 0 <= i < |s| ==> IsDigit(s[i])
  }

  /** A non-empty digit string without a redundant leading zero. */
  predicate IsCanonical(s: string) {
    && |s| > 0
    && AllDigits(s)
    && (s[0] == '0' ==> |s| == 1)
  }

  /** An optional minus sign followed by a canonical digit string ("-0" excluded). */
  predicate IsIntLiteral(s: string) {
    if |s| > 0 && s[0] == '-' then IsCanonical(s[1..]) && s[1..] != "0"
    else IsCanonical(s)
  }

  function DigitValue(c: char): (d: nat)
    requires IsDigit(c)
    ensures d < 10
  {
    c as int - '0' as int
  }

  function DigitChar(d: nat): (c: char)
    requires d < 10
    ensures IsDigit(c)
    ensures DigitValue(c) == d
  {
    (('0' as int) + d) as char
  }

  /** The number a digit string denotes, most significant digit first. */
  function Value(s: string): nat
    requires AllDigits(s)
  {
    if |s| == 0 then 0
    else Value(s[..|s| - 1]) * 10 + DigitValue(s[|s| - 1])
  }

  /** `String(n)` for a non-negative integral number. */
  function NatToString(n: nat): (r: string)
    ensures IsCanonical(r)
    ensures Value(r) == n
    ensures r[|r| - 1] == DigitChar(n % 10)
    ensures n < 10 <==> |r| == 1
    ensures n < 10 ==> r == [DigitChar(n)]
  {
    if n < 10 then [DigitChar(n)]
    else
      var prefix := NatToString(n / 10);
      assert (prefix + [DigitChar(n % 10)])[..|prefix|] == prefix;
      prefix + [DigitChar(n % 10)]
  }

  /** A two-digit string denotes ten times its first digit plus its second. */
  lemma ValueOfPair(hi: char, lo: char)
    requires IsDigit(hi) && IsDigit(lo)
    ensures Value([hi, lo]) == DigitValue(hi) * 10 + DigitValue(lo)
  {
    assert [hi, lo][..1] == [hi];
    assert [hi][..0] == [];
    assert Value([hi]) == DigitValue(hi);
  }

  /** The last two characters `NatToString` writes for a number of at least
      two digits are its tens digit and its units digit. */
  lemma LastTwoDigits(n: nat)
    requires n >= 10
    ensures |NatToString(n)| >= 2
    ensures NatToString(n)[|NatToString(n)| - 2..] == [DigitChar((n / 10) % 10), DigitChar(n % 10)]
  {
    var prefix := NatToString(n / 10);
    assert NatToString(n) == prefix + [DigitChar(n % 10)];
  }

  /** The tens digit and the units digit of `n` make up `n % 100`. */
  lemma TensAndUnits(n: nat)
    ensures (n / 10) % 10 * 10 + n % 10 == n % 100
  {
  }

  /** `String(i)` for any integral number: a minus sign, then the magnitude. */
  function IntToString(i: int): (r: string)
    ensures IsIntLiteral(r)
  {
    if i < 0 then
      var digits := NatToString(-i);
      assert ("-" + digits)[1..] == digits;
      "-" + digits
    else NatToString(i)
  }

  /** Reads an integer literal back. */
  function ParseInt(s: string): int
    requires IsIntLiteral(s)
  {
    if |s| > 0 && s[0] == '-' then 0 - (Value(s[1..]) as int) else Value(s) as int
  }

  /** Every integer is read back from the text `String` writes for it. */
  lemma ParseIntToString(i: int)
    ensures ParseInt(IntToString(i)) == i
  {
    if i < 0 {
      assert ("-" + NatToString(-i))[1..] == NatToString(-i);
    }
  }

  /** Canonical digit strings are exactly the outputs of `NatToString`. */
  lemma {:induction false} NatToStringOfValue(s: string)
    requires IsCanonical(s)
    ensures NatToString(Value(s)) == s
  {
    if |s| > 1 {
      var prefix := s[..|s| - 1];
      assert prefix[0] == s[0];
      assert IsCanonical(prefix);
      NatToStringOfValue(prefix);
      ValueOfCanonicalIsLarge(prefix);
      assert Value(s) / 10 == Value(prefix);
      assert Value(s) % 10 == DigitValue(s[|s| - 1]);
      assert DigitChar(DigitValue(s[|s| - 1])) == s[|s| - 1];
      assert s == prefix + [s[|s| - 1]];
    } else {
      assert DigitChar(DigitValue(s[0])) == s[0];
    }
  }

  /** A canonical string of two or more digits denotes at least 10. */
  lemma {:induction false} ValueOfCanonicalIsLarge(s: string)
    requires IsCanonical(s)
    ensures |s| > 1 ==> Value(s) >= 10
    ensures s[0] != '0' ==> Value(s) >= 1
  {
    if |s| > 1 {
      var prefix := s[..|s| - 1];
      assert prefix[0] == s[0];
      ValueOfCanonicalIsLarge(prefix);
    }
  }

  /** The converse of `NatToStringOfValue` for literals with a sign. */
  lemma IntToStringOfParse(s: string)
    requires IsIntLiteral(s)
    ensures IntToString(ParseInt(s)) == s
  {
    if |s| > 0 && s[0] == '-' {
      NatToStringOfValue(s[1..]);
      ValueOfCanonicalIsLarge(s[1..]);
      assert s == "-" + s[1..];
    } else {
      NatToStringOfValue(s);
    }
  }
}
