/**
 * String helpers used by the plugin: removing one leading newline, the
 * ASCII case folding behind a case-insensitive regular expression, and the
 * decimal rendering of a count inside a template string.
 */
module Text {

  predicate StartsWithNewline(s: string) {
    |s| > 0 && s[0] == '\n'
  }

  /**
   * `str.replace(/^\n/, "")`: the anchored pattern matches at most one
   * newline, and only at the very start of the string.
   */
  function RemoveLeadingNewline(s: string): (r: string)
    ensures r != s <==> StartsWithNewline(s)
    ensures r == s || s == "\n" + r
  {
    if StartsWithNewline(s) then s[1..] else s
  }

  /** Removing the newline undoes prepending one, whatever follows it. */
  lemma RemoveLeadingNewlineUndoesPrepend(t: string)
    ensures RemoveLeadingNewline("\n" + t) == t
  {
  }

  /** Only one newline goes: the second of two leading newlines stays. */
  lemma RemoveLeadingNewlineRemovesOnlyOne(t: string)
    ensures RemoveLeadingNewline("\n\n" + t) == "\n" + t
  {
    assert ("\n\n" + t)[1..] == "\n" + t;
  }

  /**
   * Case folding as a non-unicode `/i` regular expression performs it for
   * ASCII letters; no other character folds onto an ASCII letter.
   */
  function AsciiLower(c: char): char {
    if 'A' <= c <= 'Z' then (c as int - 'A' as int + 'a' as int) as char else c
  }

  function LowerAscii(s: string): string {
    seq(|s|, i requires 0 <= i < |s| => AsciiLower(s[i]))
  }

  /** `/^word$/i.test(s)` for a `word` written in lower-case ASCII letters. */
  predicate MatchesIgnoringCase(s: string, word: string) {
    LowerAscii(s) == word
  }

  lemma AsciiLowerOfLetter(c: char, lower: char)
    requires 'a' <= lower <= 'z'
    ensures AsciiLower(c) == lower <==> c == lower || c as int == lower as int - 32
  {
  }

  /** A whole-string case-insensitive match accepts, at each position, exactly the two cases of the letter. */
  lemma {:induction false} MatchesIgnoringCaseIff(s: string, word: string)
    requires forall i :: 0 <= i < |word| ==> 'a' <= word[i] <= 'z'
    ensures MatchesIgnoringCase(s, word) <==>
      (|s| == |word| && forall i :: 0 <= i < |s| ==> s[i] == word[i] || s[i] as int == word[i] as int - 32)
  {
    if |s| == |word| {
      forall i | 0 <= i < |s|
        ensures LowerAscii(s)[i] == word[i] <==> s[i] == word[i] || s[i] as int == word[i] as int - 32
      {
        AsciiLowerOfLetter(s[i], word[i]);
      }
    }
  }

  predicate IsDigits(s: string) {
    forall i :: 0 <= i < |s| ==> '0' <= s[i] <= '9'
  }

  function DigitChar(d: nat): (c: char)
    requires d < 10
    ensures '0' <= c <= '9' && c as int - '0' as int == d
  {
    (d + '0' as int) as char
  }

  /** `${n}` for a non-negative integer: its decimal digits, without leading zeros. */
  function Decimal(n: nat): (s: string)
    ensures |s| > 0 && IsDigits(s)
    ensures s[0] == '0' <==> n == 0
    ensures n == 0 ==> s == "0"
    ensures |s| == 1 <==> n < 10
    decreases n
  {
    if n < 10 then [DigitChar(n)] else Decimal(n / 10) + [DigitChar(n % 10)]
  }

  /** The number a string of decimal digits denotes. */
  function DecimalValue(s: string): nat
    requires IsDigits(s)
  {
    if s == [] then 0
    else DecimalValue(s[..|s| - 1]) * 10 + (s[|s| - 1] as int - '0' as int)
  }

  /** Reading back the digits of `n` gives `n`. */
  lemma {:induction false} DecimalRoundTrip(n: nat)
    ensures DecimalValue(Decimal(n)) == n
    decreases n
  {
    if n >= 10 {
      var s := Decimal(n);
      assert s[..|s| - 1] == Decimal(n / 10);
      DecimalRoundTrip(n / 10);
    }
  }

  lemma DecimalInjective(a: nat, b: nat)
    requires Decimal(a) == Decimal(b)
    ensures a == b
  {
    DecimalRoundTrip(a);
    DecimalRoundTrip(b);
  }
}
