/** The few string operations the age picker relies on, over `seq<char>`. */
module Text {

  /** JavaScript's `\d`: one ASCII decimal digit. */
  predicate IsDigit(c: char)
  {
    '0' <= c <= '9'
  }

  /** `s.startsWith(prefix)`. */
  predicate StartsWith(s: string, prefix: string)
    ensures StartsWith(s, prefix) <==> |prefix| <= |s| && s == prefix + s[|prefix|..]
  {
    |prefix| <= |s| && s[..|prefix|] == prefix
  }

  /** `/\d{4}/.test(s)`: some four consecutive characters of `s` are digits. */
  predicate HasFourDigitRun(s: string)
    ensures HasFourDigitRun(s) ==> |s| >= 4
  {
    exists i | 0 <= i <= |s| - 4 :: DigitsAt(s, i)
  }

  /** The four characters from index `i` are digits. */
  predicate DigitsAt(s: string, i: int)
    requires 0 <= i <= |s| - 4
  {
    IsDigit(s[i]) && IsDigit(s[i + 1]) && IsDigit(s[i + 2]) && IsDigit(s[i + 3])
  }

  /** The test searches anywhere: text around a run of four digits does not hide it. */
  lemma FourDigitRunInContext(before: string, s: string, after: string)
    requires HasFourDigitRun(s)
    ensures HasFourDigitRun(before + s + after)
  {
    var i :| 0 <= i <= |s| - 4 && DigitsAt(s, i);
    var t := before + s + after;
    var j := |before| + i;
    assert t[j] == s[i] && t[j + 1] == s[i + 1] && t[j + 2] == s[i + 2] && t[j + 3] == s[i + 3];
    assert DigitsAt(t, j);
  }

  /** Four digits in a row are found anywhere, three alone or split digits are not. */
  lemma FourDigitRunExamples()
    ensures HasFourDigitRun("1990")
    ensures HasFourDigitRun("born 1990!")
    ensures !HasFourDigitRun("101")
    ensures !HasFourDigitRun("12a45")
  {
    var year := "1990";
    assert DigitsAt(year, 0);
    FourDigitRunInContext("born ", year, "!");
    assert "born " + year + "!" == "born 1990!";
    var split := "12a45";
    assert !DigitsAt(split, 0) && !DigitsAt(split, 1);
  }

  function DigitChar(d: nat): (c: char)
    requires d < 10
    ensures IsDigit(c)
  {
    "0123456789"[d]
  }

  /** The numeric value of a string of digits. */
  function DigitsValue(s: string): (n: nat)
    requires forall k | 0 <= k < |s| :: IsDigit(s[k])
  {
    if s == [] then 0
    else
      assert IsDigit(s[|s| - 1]);
      10 * DigitsValue(s[..|s| - 1]) + (s[|s| - 1] as int - '0' as int)
  }

  /** `t` is a non-empty run of digits whose value is `n`. */
  predicate IsNumeral(t: string, n: int)
  {
    |t| > 0 && (forall k | 0 <= k < |t| :: IsDigit(t[k])) && DigitsValue(t) == n
  }

  /** The decimal form JavaScript gives a non-negative integer when it becomes a string. */
  function NatToString(n: nat): (s: string)
    ensures |s| > 0
    ensures forall k | 0 <= k < |s| :: IsDigit(s[k])
    ensures DigitsValue(s) == n
    ensures s[0] == '0' ==> n == 0
  {
    if n < 10 then [DigitChar(n)] else NatToString(n / 10) + [DigitChar(n % 10)]
  }

  /** The decimal form of any integer: a minus sign before the magnitude when negative. */
  function IntToString(n: int): (s: string)
    ensures |s| > 0
    ensures n >= 0 <==> IsDigit(s[0])
    ensures n >= 0 ==> (forall k | 0 <= k < |s| :: IsDigit(s[k])) && DigitsValue(s) == n
    ensures n < 0 ==> s[0] == '-' && (forall k | 1 <= k < |s| :: IsDigit(s[k])) && DigitsValue(s[1..]) == -n
  {
    if n < 0 then
      assert ("-" + NatToString(-n))[1..] == NatToString(-n);
      "-" + NatToString(-n)
    else
      NatToString(n)
  }
}
