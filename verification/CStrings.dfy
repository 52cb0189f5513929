/** The C character classes in the "C" locale, and NUL-terminated text. */
module CStrings {
  predicate IsSpace(c: char) {
    c == ' ' || '\t' <= c <= '\r'
  }

  /** The same characters, listed. */
  predicate IsWhite(c: char) {
    c in " \t\n\U{0b}\U{0c}\r"
  }

  predicate White(s: string) {
    forall i :: 0 <= i < |s| ==> IsWhite(s[i])
  }

  lemma WhiteIsSpace(c: char)
    ensures IsWhite(c) <==> IsSpace(c)
  {}

  /** The text without its leading white space. */
  function SkipSpace(s: string): (t: string)
    ensures |t| <= |s|
  {
    if s != "" && IsSpace(s[0]) then SkipSpace(s[1..]) else s
  }

  /** The text without its trailing white space. */
  function DropTrailingSpace(s: string): (t: string)
    ensures |t| <= |s|
  {
    if s != "" && IsSpace(s[|s| - 1]) then DropTrailingSpace(s[..|s| - 1]) else s
  }

  lemma SkipSpaceStep(s: string, begin: nat)
    requires begin < |s|
    ensures SkipSpace(s[begin..]) == if IsSpace(s[begin]) then SkipSpace(s[begin + 1..]) else s[begin..]
  {
    assert s[begin..][0] == s[begin] && s[begin..][1..] == s[begin + 1..];
  }

  lemma DropTrailingSpaceStep(s: string, end: nat)
    requires 0 < end <= |s|
    ensures DropTrailingSpace(s[..end]) == if IsSpace(s[end - 1]) then DropTrailingSpace(s[..end - 1]) else s[..end]
  {
    assert s[..end][end - 1] == s[end - 1] && s[..end][..end - 1] == s[..end - 1];
  }

  /** The loop that moves the end of a text back over its trailing white space. */
  method CutTrailingSpace(s: string, cut0: nat) returns (cut: nat)
    requires cut0 <= |s|
    ensures cut <= cut0 && s[..cut] == DropTrailingSpace(s[..cut0])
  {
    hide DropTrailingSpace, IsSpace;
    cut := cut0;
    while cut > 0 && IsSpace(s[cut - 1])
      invariant cut <= cut0
      invariant DropTrailingSpace(s[..cut0]) == DropTrailingSpace(s[..cut])
    {
      DropTrailingSpaceStep(s, cut);
      cut := cut - 1;
    }
    if cut > 0 { DropTrailingSpaceStep(s, cut); } else { NothingToDrop(); }
  }

  lemma NothingToDrop()
    ensures DropTrailingSpace("") == ""
  {}

  predicate StartsWith(s: string, p: string) {
    |p| <= |s| && s[..|p|] == p
  }

  /** Position of the first `c`, or the length of the string. */
  function IndexOf(s: string, c: char): (n: nat)
    ensures n <= |s|
  {
    if s == "" || s[0] == c then 0 else 1 + IndexOf(s[1..], c)
  }

  lemma {:induction false} IndexOfIsFirst(s: string, c: char)
    ensures var n := IndexOf(s, c);
            (n < |s| ==> s[n] == c) && c !in s[..n] && (n == |s| <==> c !in s)
  {
    if s != "" && s[0] != c {
      IndexOfIsFirst(s[1..], c);
      var n := IndexOf(s, c);
      assert s == [s[0]] + s[1..];
      assert s[..n] == [s[0]] + s[1..][..n - 1];
    }
  }

  lemma {:induction false} IndexOfIs(s: string, c: char, i: nat)
    requires i < |s| && s[i] == c && forall j :: 0 <= j < i ==> s[j] != c
    ensures IndexOf(s, c) == i
  {
    if i > 0 { IndexOfIs(s[1..], c, i - 1); }
  }

  function Lower(c: char): char {
    if 'A' <= c <= 'Z' then c - 'A' + 'a' else c
  }

  /** The text a C function sees: everything before the first NUL. */
  function CText(s: string): string {
    if s == "" || s[0] == '\0' then "" else [s[0]] + CText(s[1..])
  }

  lemma {:induction false} CTextWithoutNul(s: string)
    requires forall i :: 0 <= i < |s| ==> s[i] != '\0'
    ensures CText(s) == s
  {
    if s != "" {
      CTextWithoutNul(s[1..]);
      assert s == [s[0]] + s[1..];
    }
  }

  predicate IsDigit(c: char) {
    '0' <= c <= '9'
  }

  function DigitChar(d: nat): char
    requires d < 10
  {
    '0' + d as char
  }

  /** The decimal digits of a number, without leading zeros. */
  function DecimalOf(n: nat): (s: string)
    ensures s != ""
  {
    if n < 10 then [DigitChar(n)] else DecimalOf(n / 10) + [DigitChar(n % 10)]
  }
}
