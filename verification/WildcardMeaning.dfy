/** Wildcards in terms of characters. */
module WildcardMeaning {
  import opened Common
  import opened Wildcard

  // Characters

  /** An ASCII letter and the same letter in the other case. */
  predicate CasePair(a: char, b: char) {
    var m: int, n: int := a as int, b as int;
    (65 <= m <= 90 && n == m + 32) || (65 <= n <= 90 && m == n + 32)
  }

  predicate SameLetter(a: char, b: char, caseSensitive: bool) {
    a == b || (!caseSensitive && CasePair(a, b))
  }

  /** Character by character, with `?` for any one character. */
  predicate Alike(pat: string, text: string, caseSensitive: bool) {
    |pat| == |text| && forall i :: 0 <= i < |pat| ==> pat[i] == '?' || SameLetter(pat[i], text[i], caseSensitive)
  }

  lemma TakesIs(p: char, t: char, cs: bool)
    ensures Takes(p, t, cs) <==> p == '?' || SameLetter(p, t, cs)
  {}

  // Patterns without a star

  lemma {:induction false} AlikeMatches(pat: string, text: string, cs: bool)
    requires '*' !in pat
    ensures Matches(pat, text, cs) <==> Alike(pat, text, cs)
  {
    hide Takes, SameLetter;
    if pat != "" && text != "" {
      TakesIs(pat[0], text[0], cs);
      AlikeMatches(pat[1..], text[1..], cs);
      AlikeSplit(pat, text, cs);
    }
  }

  lemma AlikeSplit(pat: string, text: string, cs: bool)
    requires pat != "" && text != ""
    ensures Alike(pat, text, cs)
       <==> (pat[0] == '?' || SameLetter(pat[0], text[0], cs)) && Alike(pat[1..], text[1..], cs)
  {
    hide SameLetter;
    if (pat[0] == '?' || SameLetter(pat[0], text[0], cs)) && Alike(pat[1..], text[1..], cs) {
      forall i | 0 <= i < |pat| ensures pat[i] == '?' || SameLetter(pat[i], text[i], cs) {
        if i > 0 { assert pat[1..][i - 1] == pat[i] && text[1..][i - 1] == text[i]; }
      }
    }
    if Alike(pat, text, cs) {
      assert forall i :: 0 <= i < |pat| - 1 ==> pat[1..][i] == pat[i + 1] && text[1..][i] == text[i + 1];
    }
  }

  /** Without a star the matcher compares character by character, whatever the text: equal characters, or without
      case ASCII letters in either case; `?` takes any character. */
  lemma PlainPatternsCompareCharacters(pat: string, text: string, cs: bool)
    requires '*' !in pat
    ensures Greedy(pat, text, cs) <==> Alike(pat, text, cs)
  {
    hide Greedy, Matches, Alike;
    GreedyIsExactForPlainPatterns(pat, text, cs);
    AlikeMatches(pat, text, cs);
  }

  // Patterns with stars

  /** The parts of a pattern with a star between any two of them. */
  function Starred(parts: seq<string>): string
    requires parts != []
  {
    if |parts| == 1 then parts[0] else parts[0] + ("*" + Starred(parts[1..]))
  }

  predicate StarFree(parts: seq<string>) {
    forall i :: 0 <= i < |parts| ==> '*' !in parts[i]
  }

  /** The parts fit the text one after the other, the first at its start and the last at its end. */
  ghost predicate Fits(parts: seq<string>, text: string, cs: bool)
    requires parts != []
  {
    if |parts| == 1 then Alike(parts[0], text, cs)
    else
      var n := |parts[0]|;
      && n <= |text| && Alike(parts[0], text[..n], cs)
      && exists k: nat :: n <= k <= |text| && Fits(parts[1..], text[k..], cs)
  }

  lemma TakesAllIsAlike(seg: string, text: string, cs: bool)
    requires '*' !in seg
    ensures TakesAll(seg, text, cs) <==> |seg| <= |text| && Alike(seg, text[..|seg|], cs)
  {
    hide Takes, SameLetter;
    forall p: char, t: char ensures Takes(p, t, cs) <==> p == '?' || SameLetter(p, t, cs) { TakesIs(p, t, cs); }
    if |seg| <= |text| {
      assert forall i :: 0 <= i < |seg| ==> text[..|seg|][i] == text[i];
    }
  }

  lemma StarIsAnything(pat: string, text: string, cs: bool)
    requires pat != "" && pat[0] == '*'
    ensures Matches(pat, text, cs) <==> exists k: nat :: k <= |text| && Matches(pat[1..], text[k..], cs)
  {}

  lemma {:induction false} FitsMatches(parts: seq<string>, text: string, cs: bool)
    requires parts != [] && StarFree(parts)
    ensures Matches(Starred(parts), text, cs) <==> Fits(parts, text, cs)
    decreases |parts|
  {
    hide Matches, Alike, TakesAll;
    var seg := parts[0];
    if |parts| == 1 {
      AlikeMatches(seg, text, cs);
    } else {
      var n, tail := |seg|, "*" + Starred(parts[1..]);
      assert StarFree(parts[1..]);
      assert tail[1..] == Starred(parts[1..]);
      SegmentMatches(seg, tail, text, cs);
      TakesAllIsAlike(seg, text, cs);
      if n <= |text| {
        StarIsAnything(tail, text[n..], cs);
        forall k: nat | n <= k <= |text|
          ensures text[n..][k - n..] == text[k..]
          ensures Matches(Starred(parts[1..]), text[k..], cs) <==> Fits(parts[1..], text[k..], cs)
        {
          FitsMatches(parts[1..], text[k..], cs);
        }
        StarShifted(parts[1..], text, n, cs);
      }
    }
  }

  lemma StarShifted(parts: seq<string>, text: string, n: nat, cs: bool)
    requires parts != [] && n <= |text|
    requires forall k: nat :: n <= k <= |text| ==>
               (Matches(Starred(parts), text[k..], cs) <==> Fits(parts, text[k..], cs))
    ensures (exists k: nat :: k <= |text[n..]| && Matches(Starred(parts), text[n..][k..], cs))
       <==> (exists k: nat :: n <= k <= |text| && Fits(parts, text[k..], cs))
  {
    hide Matches, Fits, Starred;
    if k: nat :| k <= |text[n..]| && Matches(Starred(parts), text[n..][k..], cs) {
      assert text[n..][k..] == text[n + k..];
      assert Fits(parts, text[n + k..], cs);
    }
    if k: nat :| n <= k <= |text| && Fits(parts, text[k..], cs) {
      assert text[n..][k - n..] == text[k..];
      assert Matches(Starred(parts), text[n..][k - n..], cs);
    }
  }

  /** With stars, on texts without one: the matcher accepts exactly the texts that the parts fit. */
  lemma StarsTakeAnything(parts: seq<string>, text: string, cs: bool)
    requires parts != [] && StarFree(parts) && '*' !in text
    ensures Greedy(Starred(parts), text, cs) <==> Fits(parts, text, cs)
  {
    hide Greedy, Matches, Fits, Starred;
    GreedyIsExactWithoutStars(Starred(parts), text, cs);
    FitsMatches(parts, text, cs);
  }

  /** Every pattern is made of parts. */
  lemma {:induction false} EveryPatternHasParts(pat: string) returns (parts: seq<string>)
    ensures parts != [] && StarFree(parts) && Starred(parts) == pat
  {
    if pat == "" {
      parts := [""];
    } else {
      var rest := EveryPatternHasParts(pat[1..]);
      if pat[0] == '*' {
        parts := [""] + rest;
        assert parts[1..] == rest;
        assert "" + ("*" + Starred(rest)) == "*" + pat[1..];
        assert "*" + pat[1..] == pat;
      } else {
        var first := [pat[0]] + rest[0];
        parts := [first] + rest[1..];
        assert '*' !in rest[0];
        assert pat == [pat[0]] + pat[1..];
        FirstPartGrows(pat[0], rest);
      }
    }
  }

  lemma FirstPartGrows(c: char, parts: seq<string>)
    requires parts != []
    ensures Starred([[c] + parts[0]] + parts[1..]) == [c] + Starred(parts)
  {
    var grown := [[c] + parts[0]] + parts[1..];
    assert |grown| == |parts| && grown[0] == [c] + parts[0] && grown[1..] == parts[1..];
    if |parts| > 1 { Regrouped([c], parts[0], "*" + Starred(parts[1..])); }
  }

  // Case

  /** The same text with the case of some ASCII letters changed. */
  predicate Recased(a: string, b: string) {
    |a| == |b| && forall i :: 0 <= i < |a| ==> SameLetter(a[i], b[i], false)
  }

  lemma RecasedTakes(p: char, p': char, t: char, t': char)
    requires SameLetter(p, p', false) && SameLetter(t, t', false)
    ensures Takes(p, t, false) <==> Takes(p', t', false)
    ensures p == '*' <==> p' == '*'
  {}

  lemma RecasedStars(a: string, b: string)
    requires Recased(a, b)
    ensures OnlyStars(a) <==> OnlyStars(b)
  {
    hide SameLetter;
    forall i | 0 <= i < |a| ensures a[i] == '*' <==> b[i] == '*' { RecasedTakes(a[i], b[i], a[i], b[i]); }
  }

  lemma {:induction false} RecasedSearch(pat: string, pat': string, text: string, text': string, pi: nat, ti: nat,
                                         anchor: Anchor)
    requires Recased(pat, pat') && Recased(text, text') && ValidAnchor(anchor, pat, text, pi, ti)
    ensures Search(pat, text, false, pi, ti, anchor) <==> Search(pat', text', false, pi, ti, anchor)
    decreases Distance(anchor, text), |pat| - pi
  {
    hide SameLetter, Takes, OnlyStars;
    if ti == |text| {
      assert Recased(pat[pi..], pat'[pi..]);
      RecasedStars(pat[pi..], pat'[pi..]);
    } else {
      if pi < |pat| { RecasedTakes(pat[pi], pat'[pi], text[ti], text'[ti]); }
      if pi < |pat| && Takes(pat[pi], text[ti], false) {
        RecasedSearch(pat, pat', text, text', pi + 1, ti + 1, anchor);
      } else if pi < |pat| && pat[pi] == '*' {
        RecasedSearch(pat, pat', text, text', pi + 1, ti, Star(pi + 1, ti));
      } else if anchor.Star? {
        RecasedSearch(pat, pat', text, text', anchor.pat, anchor.text + 1, Star(anchor.pat, anchor.text + 1));
      }
    }
  }

  /** Without case the answer is the same for any change of case in the pattern and in the text. */
  lemma CaseDoesNotMatter(pat: string, pat': string, text: string, text': string)
    requires Recased(pat, pat') && Recased(text, text')
    ensures Greedy(pat, text, false) <==> Greedy(pat', text', false)
  {
    RecasedSearch(pat, pat', text, text', 0, 0, NoStar);
  }
}
