/** The string operations the handlers rely on: case folding and substring
    matching for `ilike`, and Python's `str` on an integer. */
module Text {

  /** Lower-case of one character; only the ASCII letters A-Z change. */
  function LowerChar(c: char): char {
    if 'A' <= c <= 'Z' then (c as int + 32) as char else c
  }

  function Lower(s: string): (r: string)
    ensures |r| == |s|
    ensures forall i :: 0 <= i < |s| ==> r[i] == LowerChar(s[i])
  {
    if s == [] then [] else [LowerChar(s[0])] + Lower(s[1..])
  }

  /** Folding case twice is folding it once, so a term that is already
      lower-case and one that is not select the same texts. */
  lemma LowerIdempotent(s: string)
    ensures Lower(Lower(s)) == Lower(s)
  {
  }

  /** Reference meaning of a substring test: `pat` sits in `text` at some offset. */
  ghost predicate OccursIn(pat: string, text: string) {
    exists i :: OccursAt(pat, text, i)
  }

  ghost predicate OccursAt(pat: string, text: string, i: int) {
    0 <= i <= |text| - |pat| && text[i..i + |pat|] == pat
  }

  /** Substring test by scanning the offsets of `text` from the left. */
  function Contains(text: string, pat: string): bool
    decreases |text|
  {
    (|pat| <= |text| && text[..|pat|] == pat) || (|text| > 0 && Contains(text[1..], pat))
  }

  lemma {:induction false} ContainsMeansOccurs(text: string, pat: string)
    ensures Contains(text, pat) <==> OccursIn(pat, text)
    decreases |text|
  {
    if |pat| <= |text| && text[..|pat|] == pat {
      assert OccursAt(pat, text, 0);
    } else if |text| == 0 {
      assert |pat| > 0;
    } else {
      ContainsMeansOccurs(text[1..], pat);
      var tail := text[1..];
      if OccursIn(pat, text) {
        var i :| OccursAt(pat, text, i);
        assert i != 0;
        assert tail[i - 1..i - 1 + |pat|] == pat;
        assert OccursAt(pat, tail, i - 1);
      }
      if OccursIn(pat, tail) {
        var j :| OccursAt(pat, tail, j);
        assert text[j + 1..j + 1 + |pat|] == pat;
        assert OccursAt(pat, text, j + 1);
      }
    }
  }

  /** The decimal digit `d` as a character. */
  function DigitChar(d: nat): char
    requires d < 10
  {
    ('0' as int + d) as char
  }

  /** Python's `str(n)` for a natural number: its decimal numeral. */
  function NatToString(n: nat): (s: string)
    ensures |s| >= 1
    ensures forall i :: 0 <= i < |s| ==> '0' <= s[i] <= '9'
  {
    if n < 10 then [DigitChar(n)] else NatToString(n / 10) + [DigitChar(n % 10)]
  }

  /** The number a string of decimal digits denotes, most significant first. */
  function DigitsValue(s: string): nat
    requires forall i :: 0 <= i < |s| ==> '0' <= s[i] <= '9'
  {
    if s == [] then 0 else DigitsValue(s[..|s| - 1]) * 10 + (s[|s| - 1] as int - '0' as int)
  }

  /** The numeral spells `n` in decimal, with no leading zero. */
  lemma {:induction false} NatToStringValue(n: nat)
    ensures DigitsValue(NatToString(n)) == n
    ensures n > 0 ==> NatToString(n)[0] != '0'
  {
    if n >= 10 {
      NatToStringValue(n / 10);
      var s := NatToString(n);
      assert s[..|s| - 1] == NatToString(n / 10);
    }
  }

  /** Python's `str(n)` for any integer: a minus sign exactly for negative
      numbers, followed by the numeral of the magnitude. */
  function IntToString(n: int): (s: string)
    ensures |s| >= 1 && (s[0] == '-' <==> n < 0)
    ensures n < 0 ==> s[1..] == NatToString(-n)
    ensures n >= 0 ==> s == NatToString(n)
  {
    if n < 0 then "-" + NatToString(-n) else NatToString(n)
  }

  lemma {:induction false} NatToStringInjective(a: nat, b: nat)
    ensures NatToString(a) == NatToString(b) ==> a == b
  {
    if a >= 10 && b >= 10 && NatToString(a) == NatToString(b) {
      var sa, sb := NatToString(a), NatToString(b);
      assert NatToString(a / 10) == sa[..|sa| - 1] == sb[..|sb| - 1] == NatToString(b / 10);
      NatToStringInjective(a / 10, b / 10);
      assert sa[|sa| - 1] == DigitChar(a % 10) && sb[|sb| - 1] == DigitChar(b % 10);
    }
  }

  /** Distinct ids never print alike, so a category string names one id. */
  lemma IntToStringInjective(a: int, b: int)
    ensures IntToString(a) == IntToString(b) ==> a == b
  {
    if a < 0 && b < 0 && IntToString(a) == IntToString(b) {
      assert NatToString(-a) == IntToString(a)[1..] == IntToString(b)[1..] == NatToString(-b);
      NatToStringInjective(-a, -b);
    } else if a >= 0 && b >= 0 {
      NatToStringInjective(a, b);
    } else if a < 0 && b >= 0 {
      assert '0' <= NatToString(b)[0] <= '9';
    } else if a >= 0 && b < 0 {
      assert '0' <= NatToString(a)[0] <= '9';
    }
  }
}
