/** Matching names against patterns with '*' and '?'. */
module Wildcard {
  import opened CStrings

  function Norm(c: char, caseSensitive: bool): char {
    if caseSensitive then c else Lower(c)
  }

  /** Does the pattern character stand for this one character? A '*' does for a '*' in the text. */
  predicate Takes(p: char, t: char, caseSensitive: bool) {
    p == '?' || Norm(p, caseSensitive) == Norm(t, caseSensitive)
  }

  /** What a pattern means: '?' is any character, '*' any text, everything else itself. */
  ghost predicate Matches(pat: string, text: string, caseSensitive: bool)
    decreases |pat|
  {
    if pat == "" then text == ""
    else if pat[0] == '*' then exists k: nat :: k <= |text| && Matches(pat[1..], text[k..], caseSensitive)
    else text != "" && Takes(pat[0], text[0], caseSensitive) && Matches(pat[1..], text[1..], caseSensitive)
  }

  predicate OnlyStars(pat: string) {
    forall i :: 0 <= i < |pat| ==> pat[i] == '*'
  }

  /** Where to go back to: the pattern after the last star, and the text that the star has not taken yet. */
  datatype Anchor = NoStar | Star(pat: nat, text: nat)

  function Distance(anchor: Anchor, text: string): int {
    if anchor.NoStar? then |text| + 1 else |text| - anchor.text
  }

  ghost predicate ValidAnchor(anchor: Anchor, pat: string, text: string, pi: nat, ti: nat) {
    pi <= |pat| && ti <= |text| && (anchor.Star? ==> anchor.pat <= pi && anchor.text <= ti)
  }

  /** The greedy search from position `pi` of the pattern and `ti` of the text. */
  function Search(pat: string, text: string, cs: bool, pi: nat, ti: nat, anchor: Anchor): bool
    requires ValidAnchor(anchor, pat, text, pi, ti)
    decreases Distance(anchor, text), |pat| - pi
  {
    if ti == |text| then OnlyStars(pat[pi..])
    else if pi < |pat| && Takes(pat[pi], text[ti], cs) then Search(pat, text, cs, pi + 1, ti + 1, anchor)
    else if pi < |pat| && pat[pi] == '*' then Search(pat, text, cs, pi + 1, ti, Star(pi + 1, ti))
    else if anchor.Star? then
      Search(pat, text, cs, anchor.pat, anchor.text + 1, Star(anchor.pat, anchor.text + 1))
    else false
  }

  /** The answer of the greedy matcher. */
  predicate Greedy(pat: string, text: string, caseSensitive: bool) {
    Search(pat, text, caseSensitive, 0, 0, NoStar)
  }

  /** `wildcard_match` of the file finder. */
  method WildcardMatch(pat: string, text: string, caseSensitive: bool) returns (matched: bool)
    ensures matched == Greedy(pat, text, caseSensitive)
  {
    var pi: nat, ti: nat := 0, 0;
    var anchor := NoStar;
    while ti < |text|
      invariant ValidAnchor(anchor, pat, text, pi, ti)
      invariant Search(pat, text, caseSensitive, pi, ti, anchor) == Greedy(pat, text, caseSensitive)
      decreases Distance(anchor, text), |pat| - pi
    {
      if pi < |pat| && (pat[pi] == '?' || Norm(pat[pi], caseSensitive) == Norm(text[ti], caseSensitive)) {
        pi, ti := pi + 1, ti + 1;
      } else if pi < |pat| && pat[pi] == '*' {
        pi := pi + 1;
        anchor := Star(pi, ti);
      } else if anchor.Star? {
        anchor := Star(anchor.pat, anchor.text + 1);
        pi, ti := anchor.pat, anchor.text;
      } else {
        return false;
      }
    }
    ghost var p := pi;
    while pi < |pat| && pat[pi] == '*'
      invariant p <= pi <= |pat| && forall j :: p <= j < pi ==> pat[j] == '*'
    {
      pi := pi + 1;
    }
    assert pi < |pat| ==> pat[p..][pi - p] != '*';
    return pi == |pat|;
  }

  /** The character under a C string pointer. */
  function At(s: string, i: nat): char {
    if i < |s| then s[i] else '\0'
  }

  lemma {:induction false} CTextPrefix(s: string)
    ensures CText(s) <= s
    ensures At(s, |CText(s)|) == '\0'
    ensures forall i :: 0 <= i < |CText(s)| ==> At(s, i) == CText(s)[i] != '\0'
  {
    if s != "" && s[0] != '\0' { CTextPrefix(s[1..]); }
  }

  /** `wildcard_impl` of the string helpers: the same search over NUL-terminated text. */
  method WildcardImpl(text: string, pat: string) returns (matched: bool)
    ensures matched == Greedy(CText(pat), CText(text), true)
  {
    ghost var t, p := CText(text), CText(pat);
    CTextPrefix(text);
    CTextPrefix(pat);
    var pi: nat, ti: nat := 0, 0;
    var anchor := NoStar;
    while At(text, ti) != '\0'
      invariant ValidAnchor(anchor, p, t, pi, ti)
      invariant Search(p, t, true, pi, ti, anchor) == Greedy(p, t, true)
      decreases Distance(anchor, t), |p| - pi
    {
      if At(pat, pi) == '?' || At(pat, pi) == At(text, ti) {
        ti, pi := ti + 1, pi + 1;
      } else if At(pat, pi) == '*' {
        pi := pi + 1;
        anchor := Star(pi, ti);
      } else if anchor.Star? {
        anchor := Star(anchor.pat, anchor.text + 1);
        pi, ti := anchor.pat, anchor.text;
      } else {
        return false;
      }
    }
    ghost var p0 := pi;
    while At(pat, pi) == '*'
      invariant p0 <= pi <= |p| && forall j :: p0 <= j < pi ==> p[j] == '*'
      decreases |p| - pi
    {
      pi := pi + 1;
    }
    assert pi < |p| ==> p[p0..][pi - p0] != '*';
    return At(pat, pi) == '\0';
  }

  /** The two copies give the same answer, case counting, on texts and patterns without NUL. */
  lemma CopiesAgree(pat: string, text: string)
    requires '\0' !in pat && '\0' !in text
    ensures Greedy(CText(pat), CText(text), true) == Greedy(pat, text, true)
  {
    CTextWithoutNul(pat);
    CTextWithoutNul(text);
  }

  // Soundness

  lemma StarMatches(pat: string, text: string, k: nat, cs: bool)
    requires pat != "" && pat[0] == '*' && k <= |text| && Matches(pat[1..], text[k..], cs)
    ensures Matches(pat, text, cs)
  {}

  lemma {:induction false} StarsMatchNothing(pat: string, cs: bool)
    ensures OnlyStars(pat) <==> Matches(pat, "", cs)
  {
    if pat != "" {
      StarsMatchNothing(pat[1..], cs);
      assert ""[0..] == "";
      if OnlyStars(pat[1..]) && pat[0] == '*' { assert OnlyStars(pat); }
    }
  }

  /** If the rest of the text matches the rest of the pattern, this character can be taken. */
  lemma TakenMatches(pat: string, text: string, cs: bool)
    requires pat != "" && text != "" && Takes(pat[0], text[0], cs) && Matches(pat[1..], text[1..], cs)
    ensures Matches(pat, text, cs)
  {
    if pat[0] == '*' { StarMatches(pat, text, 1, cs); }
  }

  /** A match from the anchor on, wherever the star ends, is a match of everything. */
  ghost predicate AnchorSound(pat: string, text: string, cs: bool, anchor: Anchor) {
    anchor.Star? && anchor.pat <= |pat| ==>
      forall k: nat :: anchor.text <= k <= |text| && Matches(pat[anchor.pat..], text[k..], cs) ==>
        Matches(pat, text, cs)
  }

  lemma {:induction false} SearchIsSound(pat: string, text: string, cs: bool, pi: nat, ti: nat, anchor: Anchor)
    requires ValidAnchor(anchor, pat, text, pi, ti)
    requires Matches(pat[pi..], text[ti..], cs) ==> Matches(pat, text, cs)
    requires AnchorSound(pat, text, cs, anchor)
    requires Search(pat, text, cs, pi, ti, anchor)
    ensures Matches(pat, text, cs)
    decreases Distance(anchor, text), |pat| - pi
  {
    hide Matches, Takes;
    if ti == |text| {
      StarsMatchNothing(pat[pi..], cs);
      assert text[ti..] == "";
    } else if pi < |pat| && Takes(pat[pi], text[ti], cs) {
      if Matches(pat[pi + 1..], text[ti + 1..], cs) { TakenMatches(pat[pi..], text[ti..], cs); }
      SearchIsSound(pat, text, cs, pi + 1, ti + 1, anchor);
    } else if pi < |pat| && pat[pi] == '*' {
      forall k: nat | ti <= k <= |text| && Matches(pat[pi + 1..], text[k..], cs)
        ensures Matches(pat, text, cs)
      {
        assert text[ti..][k - ti..] == text[k..];
        StarMatches(pat[pi..], text[ti..], k - ti, cs);
      }
      SearchIsSound(pat, text, cs, pi + 1, ti, Star(pi + 1, ti));
    } else {
      SearchIsSound(pat, text, cs, anchor.pat, anchor.text + 1, Star(anchor.pat, anchor.text + 1));
    }
  }

  /** Whatever the greedy matcher accepts does match, for every text and pattern. */
  lemma GreedyIsSound(pat: string, text: string, cs: bool)
    requires Greedy(pat, text, cs)
    ensures Matches(pat, text, cs)
  {
    assert pat[0..] == pat && text[0..] == text;
    SearchIsSound(pat, text, cs, 0, 0, NoStar);
  }

  // Completeness on texts without a star

  /** `seg` takes the first characters of `text` one by one. */
  predicate TakesAll(seg: string, text: string, cs: bool) {
    |seg| <= |text| && forall i :: 0 <= i < |seg| ==> seg[i] != '*' && Takes(seg[i], text[i], cs)
  }

  lemma {:induction false} SegmentMatches(seg: string, pat: string, text: string, cs: bool)
    requires forall i :: 0 <= i < |seg| ==> seg[i] != '*'
    ensures Matches(seg + pat, text, cs) <==> TakesAll(seg, text, cs) && Matches(pat, text[|seg|..], cs)
    decreases |seg|
  {
    hide Takes;
    if seg == "" {
      assert seg + pat == pat && text[0..] == text;
    } else {
      assert (seg + pat)[1..] == seg[1..] + pat && (seg + pat)[0] == seg[0];
      if text != "" {
        SegmentMatches(seg[1..], pat, text[1..], cs);
        if |seg| <= |text| { assert text[1..][|seg| - 1..] == text[|seg|..]; }
        TakesAllSplit(seg, text, cs);
      }
    }
  }

  lemma TakesAllSplit(seg: string, text: string, cs: bool)
    requires seg != "" && text != "" && seg[0] != '*'
    ensures TakesAll(seg, text, cs) <==> Takes(seg[0], text[0], cs) && TakesAll(seg[1..], text[1..], cs)
  {
    hide Takes;
    if Takes(seg[0], text[0], cs) && TakesAll(seg[1..], text[1..], cs) {
      forall i | 0 <= i < |seg|
        ensures seg[i] != '*' && Takes(seg[i], text[i], cs)
      {
        if i > 0 { assert seg[1..][i - 1] == seg[i] && text[1..][i - 1] == text[i]; }
      }
    }
    if TakesAll(seg, text, cs) {
      forall i | 0 <= i < |seg| - 1
        ensures seg[1..][i] != '*' && Takes(seg[1..][i], text[1..][i], cs)
      {
        assert seg[1..][i] == seg[i + 1] && text[1..][i] == text[i + 1];
      }
    }
  }

  /** A star can give up characters to the ones before it. */
  lemma StarTakesMore(pat: string, text: string, i: nat, j: nat, cs: bool)
    requires pat != "" && pat[0] == '*' && i <= j <= |text| && Matches(pat, text[j..], cs)
    ensures Matches(pat, text[i..], cs)
  {
    var k: nat :| k <= |text[j..]| && Matches(pat[1..], text[j..][k..], cs);
    assert text[j..][k..] == text[i..][j - i + k..];
    StarMatches(pat, text[i..], j - i + k, cs);
  }

  /** What the search knows about a match: without an anchor it goes on from here, with one it goes
      on from the anchor, and the characters since the anchor have been taken one by one. */
  ghost predicate Pending(pat: string, text: string, cs: bool, pi: nat, ti: nat, anchor: Anchor)
    requires ValidAnchor(anchor, pat, text, pi, ti)
  {
    match anchor
    case NoStar => Matches(pat, text, cs) ==> Matches(pat[pi..], text[ti..], cs)
    case Star(sp, st) =>
      && (Matches(pat, text, cs) ==> exists k: nat :: st <= k <= |text| && Matches(pat[sp..], text[k..], cs))
      && ti - st == pi - sp
      && TakesAll(pat[sp..pi], text[st..], cs)
  }

  lemma NoMatchHere(pat: string, text: string, cs: bool)
    requires pat == "" || (pat[0] != '*' && (text == "" || !Takes(pat[0], text[0], cs)))
    requires pat != "" || text != ""
    ensures !Matches(pat, text, cs)
  {}

  /** After the segment the pattern cannot go on here, so the star must take another character. */
  lemma NextStart(pat: string, text: string, cs: bool, pi: nat, ti: nat, sp: nat, st: nat)
    requires ValidAnchor(Star(sp, st), pat, text, pi, ti) && Pending(pat, text, cs, pi, ti, Star(sp, st))
    requires ti < |text| && !Matches(pat[pi..], text[ti..], cs) && Matches(pat, text, cs)
    ensures exists k: nat :: st + 1 <= k <= |text| && Matches(pat[sp..], text[k..], cs)
  {
    hide Matches, TakesAll;
    var k: nat :| st <= k <= |text| && Matches(pat[sp..], text[k..], cs);
    if k == st {
      SegmentOfTaken(pat, text, cs, pi, ti, sp, st);
    }
  }

  lemma SegmentOfTaken(pat: string, text: string, cs: bool, pi: nat, ti: nat, sp: nat, st: nat)
    requires sp <= pi <= |pat| && st <= ti <= |text| && ti - st == pi - sp
    requires TakesAll(pat[sp..pi], text[st..], cs)
    ensures Matches(pat[sp..], text[st..], cs) <==> Matches(pat[pi..], text[ti..], cs)
  {
    hide Matches;
    assert pat[sp..] == pat[sp..pi] + pat[pi..];
    assert text[st..][pi - sp..] == text[ti..];
    SegmentMatches(pat[sp..pi], pat[pi..], text[st..], cs);
  }

  /** At a new star the match goes on from here, whatever the last star took. */
  lemma MatchGoesOn(pat: string, text: string, cs: bool, pi: nat, ti: nat, anchor: Anchor)
    requires ValidAnchor(anchor, pat, text, pi, ti) && Pending(pat, text, cs, pi, ti, anchor)
    requires pi < |pat| && pat[pi] == '*' && Matches(pat, text, cs)
    ensures Matches(pat[pi..], text[ti..], cs)
  {
    hide TakesAll, Matches;
    if anchor.Star? {
      var sp := anchor.pat;
      var k: nat :| anchor.text <= k <= |text| && Matches(pat[sp..], text[k..], cs);
      var seg := pat[sp..pi];
      assert pat[sp..] == seg + pat[pi..];
      NoStarInside(seg, text[anchor.text..], cs);
      SegmentMatches(seg, pat[pi..], text[k..], cs);
      SegmentFits(seg, text[k..], cs);
      assert text[k..][|seg|..] == text[k + |seg|..];
      StarTakesMore(pat[pi..], text, ti, k + |seg|, cs);
    }
  }

  lemma NewStar(pat: string, text: string, cs: bool, pi: nat, ti: nat)
    requires pi < |pat| && ti <= |text| && pat[pi] == '*' && Matches(pat[pi..], text[ti..], cs)
    ensures exists k: nat :: ti <= k <= |text| && Matches(pat[pi + 1..], text[k..], cs)
  {
    assert pat[pi..][1..] == pat[pi + 1..];
    var k: nat :| k <= |text[ti..]| && Matches(pat[pi..][1..], text[ti..][k..], cs);
    assert text[ti..][k..] == text[ti + k..];
  }

  lemma NoStarInside(seg: string, text: string, cs: bool)
    requires TakesAll(seg, text, cs)
    ensures forall i :: 0 <= i < |seg| ==> seg[i] != '*'
  {}

  lemma SegmentFits(seg: string, text: string, cs: bool)
    requires TakesAll(seg, text, cs)
    ensures |seg| <= |text|
  {}

  lemma TakeOne(pat: string, text: string, cs: bool, pi: nat, ti: nat, anchor: Anchor)
    requires ValidAnchor(anchor, pat, text, pi, ti) && Pending(pat, text, cs, pi, ti, anchor)
    requires pi < |pat| && ti < |text| && pat[pi] != '*' && Takes(pat[pi], text[ti], cs)
    ensures Pending(pat, text, cs, pi + 1, ti + 1, anchor)
  {
    hide Takes;
    if anchor.Star? {
      var seg, rest := pat[anchor.pat..pi + 1], text[anchor.text..];
      forall i | 0 <= i < |seg|
        ensures seg[i] != '*' && Takes(seg[i], rest[i], cs)
      {
        if i < |seg| - 1 {
          assert pat[anchor.pat..pi][i] == seg[i];
        }
      }
    } else {
      assert pat[pi..][1..] == pat[pi + 1..] && text[ti..][1..] == text[ti + 1..];
    }
  }

  lemma TakenIsNoStar(p: char, t: char, cs: bool)
    requires Takes(p, t, cs) && t != '*'
    ensures p != '*'
  {}

  lemma AtTheEnd(pat: string, text: string, cs: bool, pi: nat, anchor: Anchor)
    requires ValidAnchor(anchor, pat, text, pi, |text|) && Pending(pat, text, cs, pi, |text|, anchor)
    requires Matches(pat, text, cs)
    ensures OnlyStars(pat[pi..])
  {
    hide TakesAll, Matches;
    StarsMatchNothing(pat[pi..], cs);
    assert text[|text|..] == "";
    if anchor.Star? {
      var sp, st := anchor.pat, anchor.text;
      var k: nat :| st <= k <= |text| && Matches(pat[sp..], text[k..], cs);
      var seg := pat[sp..pi];
      assert pat[sp..] == seg + pat[pi..];
      NoStarInside(seg, text[st..], cs);
      SegmentMatches(seg, pat[pi..], text[k..], cs);
      SegmentFits(seg, text[k..], cs);
      assert k == st;
      SegmentOfTaken(pat, text, cs, pi, |text|, sp, st);
    }
  }

  lemma {:induction false} SearchIsComplete(pat: string, text: string, cs: bool, pi: nat, ti: nat, anchor: Anchor)
    requires ValidAnchor(anchor, pat, text, pi, ti) && Pending(pat, text, cs, pi, ti, anchor)
    requires '*' !in text && Matches(pat, text, cs)
    ensures Search(pat, text, cs, pi, ti, anchor)
    decreases Distance(anchor, text), |pat| - pi
  {
    hide Matches, Takes, TakesAll;
    if ti == |text| {
      AtTheEnd(pat, text, cs, pi, anchor);
    } else if pi < |pat| && Takes(pat[pi], text[ti], cs) {
      TakenIsNoStar(pat[pi], text[ti], cs);
      TakeOne(pat, text, cs, pi, ti, anchor);
      SearchIsComplete(pat, text, cs, pi + 1, ti + 1, anchor);
    } else if pi < |pat| && pat[pi] == '*' {
      MatchGoesOn(pat, text, cs, pi, ti, anchor);
      NewStar(pat, text, cs, pi, ti);
      NothingTaken(pat, text, cs, pi + 1, ti);
      SearchIsComplete(pat, text, cs, pi + 1, ti, Star(pi + 1, ti));
    } else {
      NoMatchHere(pat[pi..], text[ti..], cs);
      if anchor.Star? {
        NextStart(pat, text, cs, pi, ti, anchor.pat, anchor.text);
        NothingTaken(pat, text, cs, anchor.pat, anchor.text + 1);
        SearchIsComplete(pat, text, cs, anchor.pat, anchor.text + 1, Star(anchor.pat, anchor.text + 1));
      }
    }
  }

  lemma NothingTaken(pat: string, text: string, cs: bool, sp: nat, st: nat)
    requires sp <= |pat| && st <= |text|
    ensures TakesAll(pat[sp..sp], text[st..], cs)
  {}

  /** On texts without a star the greedy matcher is right in both directions. */
  lemma GreedyIsExactWithoutStars(pat: string, text: string, cs: bool)
    requires '*' !in text
    ensures Greedy(pat, text, cs) <==> Matches(pat, text, cs)
  {
    hide Matches, Search;
    assert pat[0..] == pat && text[0..] == text;
    if Greedy(pat, text, cs) { GreedyIsSound(pat, text, cs); }
    if Matches(pat, text, cs) { SearchIsComplete(pat, text, cs, 0, 0, NoStar); }
  }

  // A star in the text defeats it

  /** A pattern that matches the text but is refused: its star is spent on the star of the text. */
  function Defeating(text: string, i: nat): string
    requires i < |text|
  {
    text[..i] + (if i + 1 < |text| then "*" else "*?")
  }

  lemma {:induction false} LiteralSearch(pat: string, text: string, cs: bool, i: nat, n: nat)
    requires i <= n <= |pat| && n <= |text| && pat[..n] == text[..n]
    ensures Search(pat, text, cs, i, i, NoStar) == Search(pat, text, cs, n, n, NoStar)
    decreases n - i
  {
    if i < n {
      assert pat[i] == pat[..n][i] == text[i];
      LiteralSearch(pat, text, cs, i + 1, n);
    }
  }

  lemma {:induction false} LiteralMatches(u: string, pat: string, rest: string, cs: bool)
    requires '*' !in u
    ensures Matches(u + pat, u + rest, cs) <==> Matches(pat, rest, cs)
  {
    assert (u + rest)[|u|..] == rest;
    SegmentMatches(u, pat, u + rest, cs);
    assert TakesAll(u, u + rest, cs);
  }

  lemma DefeatingMatches(text: string, i: nat, cs: bool)
    requires i < |text| && text[i] == '*' && '*' !in text[..i]
    ensures Matches(Defeating(text, i), text, cs)
  {
    var u, rest := text[..i], text[i..];
    assert text == u + rest;
    if i + 1 < |text| {
      assert rest[|rest|..] == "" && "*"[1..] == "";
      assert Matches("", "", cs);
      StarMatches("*", rest, |rest|, cs);
      LiteralMatches(u, "*", rest, cs);
    } else {
      assert rest == "*" && rest[0..] == rest && "*?"[1..] == "?" && "?"[1..] == "" && rest[1..] == "";
      assert Matches("", "", cs);
      assert Matches("?", rest, cs);
      StarMatches("*?", rest, 0, cs);
      LiteralMatches(u, "*?", rest, cs);
    }
  }

  lemma DefeatingIsRefused(text: string, i: nat, cs: bool)
    requires i < |text| && text[i] == '*'
    ensures !Greedy(Defeating(text, i), text, cs)
  {
    var pat := Defeating(text, i);
    assert pat[..i + 1] == text[..i + 1];
    LiteralSearch(pat, text, cs, 0, i + 1);
    if i + 1 == |text| {
      assert pat[i + 1..] == "?";
      assert "?"[0] != '*';
    }
  }

  /** The matcher agrees with the meaning of every pattern exactly when the text has no star. */
  lemma GreedyIsExactOnlyWithoutStars(text: string, cs: bool)
    ensures (forall pat :: Greedy(pat, text, cs) <==> Matches(pat, text, cs)) <==> '*' !in text
  {
    if '*' !in text {
      forall pat
        ensures Greedy(pat, text, cs) <==> Matches(pat, text, cs)
      {
        GreedyIsExactWithoutStars(pat, text, cs);
      }
    } else {
      var i := FirstStar(text);
      DefeatingMatches(text, i, cs);
      DefeatingIsRefused(text, i, cs);
    }
  }

  lemma {:induction false} FirstStar(text: string) returns (i: nat)
    requires '*' in text
    ensures i < |text| && text[i] == '*' && '*' !in text[..i]
  {
    if text[0] == '*' {
      i := 0;
    } else {
      var j := FirstStar(text[1..]);
      i := j + 1;
      assert text[..i] == [text[0]] + text[1..][..j];
    }
  }

  // The same for a fixed pattern

  lemma {:induction false} SearchWithoutStars(pat: string, text: string, cs: bool, i: nat)
    requires '*' !in pat && i <= |pat| && i <= |text|
    ensures Search(pat, text, cs, i, i, NoStar) <==> Matches(pat[i..], text[i..], cs)
    ensures Search(pat, text, cs, i, i, NoStar) ==> |pat| == |text|
    decreases |text| - i
  {
    hide Matches, Takes;
    if i == |text| {
      StarsMatchNothing(pat[i..], cs);
      assert text[i..] == "";
      if i < |pat| { assert pat[i..][0] != '*'; }
    } else if i < |pat| && Takes(pat[i], text[i], cs) {
      SearchWithoutStars(pat, text, cs, i + 1);
      FirstTaken(pat[i..], text[i..], cs);
      assert pat[i..][1..] == pat[i + 1..] && text[i..][1..] == text[i + 1..];
    } else {
      NoMatchHere(pat[i..], text[i..], cs);
    }
  }

  lemma FirstTaken(pat: string, text: string, cs: bool)
    requires pat != "" && text != "" && pat[0] != '*' && Takes(pat[0], text[0], cs)
    ensures Matches(pat, text, cs) <==> Matches(pat[1..], text[1..], cs)
  {}

  /** For a pattern without a star the greedy matcher is right in both directions, stars in the text or not. */
  lemma GreedyIsExactForPlainPatterns(pat: string, text: string, cs: bool)
    requires '*' !in pat
    ensures Greedy(pat, text, cs) <==> Matches(pat, text, cs)
  {
    hide Matches, Search;
    assert pat[0..] == pat && text[0..] == text;
    SearchWithoutStars(pat, text, cs, 0);
  }

  /** A text that the pattern matches but that is refused: each star is spent on a star, and the last one
      would have to take one character more. */
  function Escaping(pat: string, i: nat): string
    requires i < |pat|
  {
    pat[..i] + ("*x" + pat[i + 1..])
  }

  lemma {:induction false} MatchesItself(u: string, pat: string, text: string, cs: bool)
    requires Matches(pat, text, cs)
    ensures Matches(u + pat, u + text, cs)
  {
    hide Matches;
    if u == "" {
      assert u + pat == pat && u + text == text;
    } else {
      MatchesItself(u[1..], pat, text, cs);
      assert (u + pat)[1..] == u[1..] + pat && (u + text)[1..] == u[1..] + text;
      TakenMatches(u + pat, u + text, cs);
    }
  }

  lemma EscapingMatches(pat: string, i: nat, cs: bool)
    requires i < |pat| && pat[i] == '*'
    ensures Matches(pat, Escaping(pat, i), cs)
  {
    hide Matches;
    var v := pat[i + 1..];
    NothingMatches(cs);
    MatchesItself(v, "", "", cs);
    assert v + "" == v;
    assert pat[i..][1..] == v && ("*x" + v)[2..] == v;
    StarMatches(pat[i..], "*x" + v, 2, cs);
    MatchesItself(pat[..i], pat[i..], "*x" + v, cs);
    assert pat[..i] + pat[i..] == pat;
  }

  lemma NothingMatches(cs: bool)
    ensures Matches("", "", cs)
  {}

  lemma {:induction false} WrongLengthIsRefused(pat: string, text: string, cs: bool, pi: nat, ti: nat)
    requires pi <= |pat| && ti <= |text| && '*' !in pat[pi..] && |pat| - pi != |text| - ti
    ensures !Search(pat, text, cs, pi, ti, NoStar)
    decreases |text| - ti
  {
    hide Takes;
    if pi < |pat| {
      assert pat[pi..][0] != '*';
      assert pat[pi..][1..] == pat[pi + 1..];
      if ti < |text| { WrongLengthIsRefused(pat, text, cs, pi + 1, ti + 1); }
    }
  }

  lemma EscapingIsRefused(pat: string, i: nat, cs: bool)
    requires i < |pat| && pat[i] == '*' && '*' !in pat[i + 1..]
    ensures !Greedy(pat, Escaping(pat, i), cs)
  {
    hide Search;
    var text := Escaping(pat, i);
    assert text[..i + 1] == pat[..i + 1];
    LiteralSearch(pat, text, cs, 0, i + 1);
    WrongLengthIsRefused(pat, text, cs, i + 1, i + 1);
  }

  lemma {:induction false} LastStar(pat: string) returns (i: nat)
    requires '*' in pat
    ensures i < |pat| && pat[i] == '*' && '*' !in pat[i + 1..]
  {
    var n := |pat| - 1;
    if pat[n] == '*' {
      i := n;
    } else {
      i := LastStar(pat[..n]);
      assert pat[i + 1..] == pat[..n][i + 1..] + [pat[n]];
    }
  }

  /** The matcher agrees with the meaning of the pattern on every text exactly when the pattern has no star. */
  lemma GreedyIsExactOnlyForPlainPatterns(pat: string, cs: bool)
    ensures (forall text :: Greedy(pat, text, cs) <==> Matches(pat, text, cs)) <==> '*' !in pat
  {
    if '*' !in pat {
      forall text
        ensures Greedy(pat, text, cs) <==> Matches(pat, text, cs)
      {
        GreedyIsExactForPlainPatterns(pat, text, cs);
      }
    } else {
      var i := LastStar(pat);
      EscapingMatches(pat, i, cs);
      EscapingIsRefused(pat, i, cs);
    }
  }
}
