/**
 * The pieces of .NET string and BigInteger text handling that the parsers and printers use:
 * String.Replace, counting and finding a character, char.IsDigit / char.IsLetter (ASCII),
 * BigInteger.ToString and BigInteger.Parse with the default integer number style.
 */
module Text {
  import opened Wrappers

  predicate IsDigit(c: char) { '0' <= c <= '9' }

  predicate IsLetter(c: char) { 'a' <= c <= 'z' || 'A' <= c <= 'Z' }

  /** The white space BigInteger.Parse skips at either end: U+0009 to U+000D and U+0020. */
  predicate IsWhite(c: char) { c == ' ' || '\t' <= c <= '\r' }

  predicate AllDigits(s: string) { forall i :: 0 <= i < |s| ==> IsDigit(s[i]) }

  /** The number of occurrences of c in s. */
  function Count(s: string, c: char): (n: nat)
    ensures n <= |s|
  {
    if |s| == 0 then 0 else Count(s[..|s| - 1], c) + (if s[|s| - 1] == c then 1 else 0)
  }

  /** A character that is counted is found. */
  lemma CountFound(s: string, c: char)
    requires Count(s, c) > 0
    ensures IndexOf(s, c) < |s|
  {
    CountZero(s, c);
  }

  /** No occurrence is counted exactly when c does not occur. */
  lemma {:induction false} CountZero(s: string, c: char)
    ensures Count(s, c) == 0 <==> forall i :: 0 <= i < |s| ==> s[i] != c
  {
    if |s| > 0 {
      CountZero(s[..|s| - 1], c);
    }
  }

  lemma {:induction false} CountConcat(s: string, t: string, c: char)
    ensures Count(s + t, c) == Count(s, c) + Count(t, c)
    decreases |t|
  {
    if |t| == 0 {
      assert s + t == s;
    } else {
      assert (s + t)[..|s + t| - 1] == s + t[..|t| - 1];
      CountConcat(s, t[..|t| - 1], c);
    }
  }

  /** The index of the first occurrence of c in s, or |s| when there is none. */
  function IndexOf(s: string, c: char): (i: nat)
    ensures i <= |s|
    ensures i < |s| ==> s[i] == c
    ensures forall j :: 0 <= j < i ==> s[j] != c
    ensures (exists j :: 0 <= j < |s| && s[j] == c) ==> i < |s|
  {
    if |s| == 0 then 0 else if s[0] == c then 0 else 1 + IndexOf(s[1..], c)
  }

  /** Whether some character of s is a letter. */
  predicate HasLetter(s: string)
  {
    |s| > 0 && (HasLetter(s[..|s| - 1]) || IsLetter(s[|s| - 1]))
  }

  lemma {:induction false} HasLetterMeans(s: string)
    ensures HasLetter(s) <==> exists i :: 0 <= i < |s| && IsLetter(s[i])
  {
    if |s| > 0 {
      HasLetterMeans(s[..|s| - 1]);
      if HasLetter(s[..|s| - 1]) {
        var i :| 0 <= i < |s| - 1 && IsLetter(s[..|s| - 1][i]);
        assert IsLetter(s[i]);
      }
    }
  }

  /** String.Replace(pattern, replacement): non-overlapping occurrences, scanned left to right. */
  function Replace(s: string, pattern: string, replacement: string): (r: string)
    requires |pattern| > 0
    ensures (forall i :: 0 <= i < |s| ==> s[i] != pattern[0]) ==> r == s
    decreases |s|
  {
    if |s| < |pattern| then s
    else if s[..|pattern|] == pattern then replacement + Replace(s[|pattern|..], pattern, replacement)
    else [s[0]] + Replace(s[1..], pattern, replacement)
  }

  // ------------------------------------------------------------------ integers as text

  function DigitChar(d: nat): (c: char)
    requires d < 10
    ensures IsDigit(c)
  {
    ('0' as int + d) as char
  }

  function DigitValue(c: char): (d: nat)
    requires IsDigit(c)
    ensures d < 10 && DigitChar(d) == c
  {
    (c as int - '0' as int)
  }

  /** The decimal digits of n, without leading zeros. */
  function NatToString(n: nat): (s: string)
    ensures |s| > 0 && AllDigits(s)
    ensures n > 0 ==> s[0] != '0'
  {
    if n < 10 then [DigitChar(n)] else NatToString(n / 10) + [DigitChar(n % 10)]
  }

  /** BigInteger.ToString(): a minus sign for negative values, then the digits. */
  function IntToString(i: int): (s: string)
    ensures |s| > 0
    ensures i >= 0 ==> AllDigits(s)
    ensures i < 0 ==> s[0] == '-' && |s| > 1 && AllDigits(s[1..])
  {
    if i < 0 then "-" + NatToString(-i) else NatToString(i)
  }

  /** The value of a string of decimal digits (0 for the empty string). */
  function DigitsValue(s: string): nat
    requires AllDigits(s)
  {
    if |s| == 0 then 0 else DigitsValue(s[..|s| - 1]) * 10 + DigitValue(s[|s| - 1])
  }

  lemma {:induction false} DigitsOfNat(n: nat)
    ensures DigitsValue(NatToString(n)) == n
  {
    if n >= 10 {
      var s := NatToString(n / 10) + [DigitChar(n % 10)];
      assert s[..|s| - 1] == NatToString(n / 10);
      DigitsOfNat(n / 10);
    }
  }

  function TrimStart(s: string): (r: string)
    ensures |r| <= |s|
  {
    if |s| > 0 && IsWhite(s[0]) then TrimStart(s[1..]) else s
  }

  function TrimEnd(s: string): (r: string)
    ensures |r| <= |s|
  {
    if |s| > 0 && IsWhite(s[|s| - 1]) then TrimEnd(s[..|s| - 1]) else s
  }

  /**
   * BigInteger.Parse with the default style: white space at either end, an optional leading
   * sign, then at least one decimal digit; anything else is a format error.
   */
  function ParseInteger(s: string): (r: Result<int>)
    ensures r.Err? ==> r.error == FormatError
  {
    var t := TrimEnd(TrimStart(s));
    if |t| == 0 then Err(FormatError)
    else
      var negative := t[0] == '-';
      var digits := if t[0] == '-' || t[0] == '+' then t[1..] else t;
      if |digits| == 0 || !AllDigits(digits) then Err(FormatError)
      else if negative then Ok(-(DigitsValue(digits) as int))
      else Ok(DigitsValue(digits) as int)
  }

  lemma SmallIntegers()
    ensures IntToString(0) == "0" && IntToString(1) == "1"
  {
  }

  lemma ParseSmall()
    ensures ParseInteger("0") == Ok(0) && ParseInteger("1") == Ok(1)
  {
    SmallIntegers();
    ParseIntToString(0);
    ParseIntToString(1);
  }

  /** Printing an integer and parsing it back gives the integer. */
  lemma ParseIntToString(i: int)
    ensures ParseInteger(IntToString(i)) == Ok(i)
  {
    var s := IntToString(i);
    assert !IsWhite(s[0]) && !IsWhite(s[|s| - 1]);
    assert TrimStart(s) == s;
    assert TrimEnd(s) == s;
    if i < 0 {
      assert s[1..] == NatToString(-i);
      DigitsOfNat(-i);
    } else {
      DigitsOfNat(i);
    }
  }

  /** Text that is not an integer: the empty string, a lone sign, a letter. */
  lemma ParseRejects()
    ensures ParseInteger("").Err? && ParseInteger("-").Err? && ParseInteger("x").Err?
    ensures ParseInteger("--5").Err?
  {
    assert TrimEnd(TrimStart("--5")) == "--5";
    assert !IsDigit("-5"[0]);
  }
}
