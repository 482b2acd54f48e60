// Decimal text of integers: strconv.FormatInt, big.Int.Text(10) and big.Int.SetString(_, 10).
module Decimal {

  const DIGITS := "0123456789"

  predicate IsDigit(c: char) {
    '0' <= c <= '9'
  }

  function Text(n: nat): (r: string)
    ensures r != "" && forall c :: c in r ==> IsDigit(c)
  {
    if n < 10 then [DIGITS[n]] else Text(n / 10) + [DIGITS[n % 10]]
  }

  function Format(i: int): (r: string)
    ensures r != "" && ':' !in r
  {
    if i < 0 then "-" + Text(-i) else Text(i)
  }

  function Value(s: string): nat
    requires forall c :: c in s ==> IsDigit(c)
  {
    if s == "" then 0
    else
      var last := s[|s| - 1];
      assert last in s && IsDigit(last);
      Value(s[..|s| - 1]) * 10 + (last as int - '0' as int)
  }

  datatype Parsed = NotANumber | Number(value: int)

  // An optional sign, then at least one digit and nothing else.
  function Parse(s: string): Parsed {
    var digits := if s != "" && (s[0] == '-' || s[0] == '+') then s[1..] else s;
    if digits == "" || exists c :: c in digits && !IsDigit(c) then NotANumber
    else
      var magnitude: int := Value(digits);
      Number(if s[0] == '-' then -magnitude else magnitude)
  }

  lemma {:induction false} ValueOfText(n: nat)
    ensures Value(Text(n)) == n
  {
    if n < 10 {
      assert Text(n)[..0] == "";
    } else {
      ValueOfText(n / 10);
      assert Text(n)[..|Text(n)| - 1] == Text(n / 10);
    }
  }

  // A larger number has no shorter text.
  lemma {:induction false} TextGrows(n: nat, m: nat)
    requires n <= m
    ensures |Text(n)| <= |Text(m)|
  {
    if m >= 10 && n >= 10 {
      TextGrows(n / 10, m / 10);
    }
  }

  // Reading back what was written gives the number.
  lemma ParseOfText(n: nat)
    ensures Parse(Text(n)) == Number(n)
  {
    ValueOfText(n);
    assert Text(n)[0] in Text(n);
  }

  // With a sign in front likewise.
  lemma ParseSigned(n: nat)
    ensures Parse("-" + Text(n)) == Number(-(n as int))
    ensures Parse("+" + Text(n)) == Number(n)
  {
    ValueOfText(n);
    assert ("-" + Text(n))[1..] == Text(n) == ("+" + Text(n))[1..];
    ParseOfText(n);
  }

  lemma ParseOfFormat(i: int)
    ensures Parse(Format(i)) == Number(i)
    ensures Format(i)[0] == '-' <==> i < 0
  {
    hide Text, Parse, Value;
    if i < 0 {
      ParseSigned(-i);
    } else {
      ParseOfText(i);
      assert Text(i)[0] in Text(i);
    }
  }

  // Anything else with a character that is no digit, or without one, is no number.
  lemma ParseRefuses(s: string)
    ensures Parse(s).NotANumber? <==>
      s in {"", "-", "+"} || exists k :: 0 <= k < |s| && !IsDigit(s[k]) && (k > 0 || (s[0] != '-' && s[0] != '+'))
  {
    var signed := s != "" && (s[0] == '-' || s[0] == '+');
    var digits := if signed then s[1..] else s;
    if c: char :| c in digits && !IsDigit(c) {
      var k :| 0 <= k < |digits| && digits[k] == c;
      var at := if signed then k + 1 else k;
      assert s[at] == c;
    }
    if k :| 0 <= k < |s| && !IsDigit(s[k]) && (k > 0 || (s[0] != '-' && s[0] != '+')) {
      assert digits[if signed then k - 1 else k] == s[k];
      assert s[k] in digits;
    }
    if digits == "" && signed {
      assert s == [s[0]];
    }
  }

  // The last digit counts ones, the others ten times as much.
  lemma TextDigits(n: nat)
    ensures Text(n)[|Text(n)| - 1] as int == '0' as int + n % 10
    ensures if n < 10 then |Text(n)| == 1 else Text(n)[..|Text(n)| - 1] == Text(n / 10)
  {
  }

  lemma FormatInjective(a: int, b: int)
    requires Format(a) == Format(b)
    ensures a == b
  {
    ValueOfText(if a < 0 then -a else a);
    ValueOfText(if b < 0 then -b else b);
    assert (a < 0 ==> Format(a)[1..] == Text(-a)) && (b < 0 ==> Format(b)[1..] == Text(-b));
    assert a >= 0 ==> Format(a)[0] in Text(a);
    assert b >= 0 ==> Format(b)[0] in Text(b);
  }
}
