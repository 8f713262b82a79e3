// Decimal numerals, as versions and IPv4 addresses contain them.

module Numerals {
  import opened Basics
  import opened Identity
  import opened Validation

  lemma {:induction false} DecimalReads(n: nat)
    ensures AreDigits(Decimal(n)) && NumberOf(Decimal(n)) == n
    ensures |Decimal(n)| > 1 ==> Decimal(n)[0] != '0'
    ensures n < 10 <==> |Decimal(n)| == 1
    ensures Decimal(n)[0] == '0' ==> n == 0
  {
    if n >= 10 {
      DecimalReads(n / 10);
      var s, d := Decimal(n / 10), ('0' as int + n % 10) as char;
      assert Decimal(n) == s + [d] && (s + [d])[..|s|] == s && (s + [d])[|s|] == d;
    } else {
      assert Decimal(n)[..0] == "";
    }
  }

  /** Numerals without leading zeros are the decimal forms of their values. */
  lemma {:induction false} NumeralIsDecimal(s: string)
    requires s != "" && AreDigits(s) && (|s| > 1 ==> s[0] != '0')
    ensures s == Decimal(NumberOf(s))
    ensures NumberOf(s) < 10 <==> |s| == 1
  {
    var last := |s| - 1;
    assert s == s[..last] + [s[last]];
    if last == 0 {
      assert s[..0] == "";
    } else {
      NumeralIsDecimal(s[..last]);
      PositiveNumeral(s[..last]);
    }
  }

  lemma {:induction false} PositiveNumeral(s: string)
    requires s != "" && AreDigits(s) && s[0] != '0'
    ensures NumberOf(s) > 0
  {
    var last := |s| - 1;
    if last > 0 {
      PositiveNumeral(s[..last]);
    }
  }

  /** An octet is the decimal form of a number up to 255. */
  lemma OctetExact(s: string)
    ensures IsOctet(s) <==> exists n :: 0 <= n <= 255 && s == Decimal(n)
  {
    if IsOctet(s) {
      NumeralIsDecimal(s);
    }
    if n :| 0 <= n <= 255 && s == Decimal(n) {
      DecimalReads(n);
      ShortDecimal(n);
    }
  }

  lemma ShortDecimal(n: nat)
    requires n <= 255
    ensures |Decimal(n)| <= 3
  {
    DecimalReads(n);
    if n >= 10 {
      DecimalReads(n / 10);
      if n / 10 >= 10 {
        DecimalReads(n / 10 / 10);
      }
    }
  }

  /** Digits, with or without a plus sign. */
  predicate IsNumeral(s: string) {
    s != "" && if s[0] == '+' then |s| > 1 && AreDigits(s[1..]) else AreDigits(s)
  }

  function NumeralValue(s: string): nat
    requires IsNumeral(s)
  {
    if s[0] == '+' then NumberOf(s[1..]) else NumberOf(s)
  }

  lemma UnsignedExact(s: string)
    ensures ParseUnsigned(s).Some? <==> IsNumeral(s) && NumeralValue(s) < 0x1_0000_0000_0000_0000
    ensures ParseUnsigned(s).Some? ==> ParseUnsigned(s).value == NumeralValue(s)
  {
    hide NumberOf;
    assert s != "" && s[0] == '+' ==> !IsDigit(s[0]);
  }

  /** A supported version is two numerals joined by a dot, the first of which is 0 or 1, and the second fits 64 bits. */
  lemma SpecVersionExact(value: string)
    ensures IsSpecVersion(value) <==>
            exists major, minor :: IsVersion(major, minor) && value == major + ("." + minor)
  {
    hide Split, IsNumeral, NumeralValue, ParseUnsigned;
    var parts := Split(value, '.');
    if IsSpecVersion(value) {
      TwoParts(parts);
      TwoPartsExact(value, '.', parts[0], parts[1]);
      UnsignedExact(parts[0]);
      UnsignedExact(parts[1]);
      assert IsVersion(parts[0], parts[1]);
    }
    if major, minor :| IsVersion(major, minor) && value == major + ("." + minor) {
      NumeralHasNoDot(major);
      NumeralHasNoDot(minor);
      TwoPartsExact(value, '.', major, minor);
      UnsignedExact(major);
      UnsignedExact(minor);
    }
  }

  predicate IsVersion(major: string, minor: string) {
    IsNumeral(major) && IsNumeral(minor) && NumeralValue(major) <= 1 && NumeralValue(minor) < 0x1_0000_0000_0000_0000
  }

  lemma TwoParts(parts: seq<string>)
    requires |parts| == 2
    ensures parts == [parts[0], parts[1]]
  {
  }

  lemma NumeralHasNoDot(s: string)
    requires IsNumeral(s)
    ensures HasNo(s, '.')
  {
    if s[0] == '+' {
      assert forall i :: 1 <= i < |s| ==> s[i] == s[1..][i - 1];
    }
  }
}
