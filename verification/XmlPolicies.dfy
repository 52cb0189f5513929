/** What the text policies make of the text that the printer writes. */
module XmlPolicies {
  import opened Common
  import opened CStrings
  import opened XmlText
  import opened XmlSerializer
  import opened XmlGrammar

  /** The line break in front of a child or of the end tag, flushed onto `text`. */
  function AfterBreak(policy: TextPolicy, text: string): string {
    if policy.CollapseWhitespaceOnly? then text + " " else text
  }

  function AfterBreaks(policy: TextPolicy, text: string, n: nat): string
    decreases n
  {
    if n == 0 then text else AfterBreaks(policy, AfterBreak(policy, text), n - 1)
  }

  /** The text of a node after the first flush: its own text, with a line break behind it if there are children. */
  function FirstFlush(policy: TextPolicy, text: string, isLeaf: bool): string {
    match policy
    case TrimAndDiscardEmpty => Trimmed(text)
    case Preserve => text
    case CollapseWhitespaceOnly =>
      if text == "" && isLeaf then "" else if AllSpace(text) then " " else Trimmed(text)
  }

  /** The text that comes back for a node with `n` children; `Preserve` is left out for children. */
  function StoredText(policy: TextPolicy, text: string, n: nat): string {
    AfterBreaks(policy, FirstFlush(policy, text, n == 0), n)
  }

  /** However much white space follows, flushing `run` onto `text` gives `text'`. */
  ghost predicate FlushesTo(policy: TextPolicy, text: string, run: string, text': string) {
    forall w :: AllSpace(w) ==> Flushed(policy, text, run + w) == text'
  }

  lemma {:induction false} StartIsKept(s: string)
    requires s != "" && !IsSpace(s[0])
    ensures DropTrailingSpace(s) != ""
  {
    if |s| > 1 { StartIsKept(s[..|s| - 1]); }
  }

  lemma {:induction false} EmptyTrimmed(s: string)
    ensures Trimmed(s) == "" <==> AllSpace(s)
  {
    if AllSpace(s) {
      TrimmedOfSpace(s);
    } else if IsSpace(s[0]) {
      EmptyTrimmed(s[1..]);
      assert AllSpace(s[1..]) ==> AllSpace(s) by {
        assert forall i :: 0 < i < |s| ==> s[i] == s[1..][i - 1];
      }
    } else {
      StartIsKept(s);
    }
  }

  lemma LineBreakFlushes(policy: TextPolicy, text: string)
    requires !policy.Preserve?
    ensures FlushesTo(policy, text, "\n", AfterBreak(policy, text))
  {
    hide Trimmed;
    forall w | AllSpace(w) ensures Flushed(policy, text, "\n" + w) == AfterBreak(policy, text) {
      assert AllSpace("\n" + w);
      TrimmedOfSpace("\n" + w);
    }
  }

  /** The text of a node with children, whose first child begins on a new line. */
  lemma TextFlushes(policy: TextPolicy, text: string)
    requires !policy.Preserve?
    ensures FlushesTo(policy, "", Escaped(InText, text) + "\n", FirstFlush(policy, text, false))
  {
    hide Trimmed, Escaped, Decoded, AllSpace;
    LineBreakIsSpace();
    forall w | AllSpace(w)
      ensures Flushed(policy, "", Escaped(InText, text) + "\n" + w) == FirstFlush(policy, text, false)
    {
      Regrouped(Escaped(InText, text), "\n", w);
      SpaceJoined("\n", w);
      FlushedOnNothing(policy, text, "\n" + w);
    }
  }

  lemma LineBreakIsSpace()
    ensures AllSpace("\n")
  {}

  lemma SpaceJoined(v: string, w: string)
    requires AllSpace(v) && AllSpace(w)
    ensures AllSpace(v + w)
  {}

  lemma FlushedOnNothing(policy: TextPolicy, text: string, w: string)
    requires !policy.Preserve? && AllSpace(w) && (w != "" || text != "")
    ensures Flushed(policy, "", Escaped(InText, text) + w) == FirstFlush(policy, text, w == "")
  {
    hide Trimmed, Escaped, Decoded, AllSpace;
    var raw := Escaped(InText, text) + w;
    EscapedTextComesBackTrimmed(text, w);
    EscapedHasNoMarkup(InText, text);
    EmptyTrimmed(raw);
    EmptyTrimmed(text);
    assert "" + Trimmed(text) == Trimmed(text);
    assert "" + " " == " ";
    assert raw != "";
  }

  /** The text of a leaf, which nothing follows. */
  lemma LeafTextFlushes(policy: TextPolicy, text: string)
    requires text != ""
    ensures Flushed(policy, "", Escaped(InText, text)) == FirstFlush(policy, text, true)
  {
    hide Trimmed, Escaped, Decoded, AllSpace;
    var e := Escaped(InText, text);
    assert e + "" == e;
    if policy.Preserve? {
      DecodeEscaped(InText, text, "");
      NothingDecoded();
      EscapedHasNoMarkup(InText, text);
      assert "" + text == text && text + "" == text;
    } else {
      NothingIsSpace();
      FlushedOnNothing(policy, text, "");
    }
  }

  lemma NothingDecoded()
    ensures Decoded("") == ""
  {}

  lemma NothingIsSpace()
    ensures AllSpace("")
  {}

  // Which texts stay as they are

  /** A text with nothing to trim, and exactly `n` blanks behind it. */
  predicate EndsInBlanks(text: string, n: nat) {
    |text| > n && TrimStable(text[..|text| - n]) && text[|text| - n..] == Spaces(n)
  }

  /** The texts that come back unchanged for a node with `n` children. */
  predicate TextStays(policy: TextPolicy, text: string, n: nat) {
    match policy
    case TrimAndDiscardEmpty => TrimStable(text)
    case Preserve => n == 0
    case CollapseWhitespaceOnly => (n == 0 && text == "") || text == Spaces(n + 1) || EndsInBlanks(text, n)
  }

  lemma {:induction false} BreaksAreBlanks(policy: TextPolicy, text: string, n: nat)
    ensures AfterBreaks(policy, text, n) == if policy.CollapseWhitespaceOnly? then text + Spaces(n) else text
    ensures |Spaces(n)| == n
    decreases n
  {
    if n == 0 {
      assert text + "" == text;
    } else {
      BreaksAreBlanks(policy, AfterBreak(policy, text), n - 1);
      BlankInFront(n - 1);
      Regrouped(text, " ", Spaces(n - 1));
    }
  }

  lemma {:induction false} BlankInFront(n: nat)
    ensures " " + Spaces(n) == Spaces(n + 1)
  {
    if n > 0 {
      BlankInFront(n - 1);
      Regrouped(" ", Spaces(n - 1), " ");
    }
  }

  lemma {:induction false} BlanksAreSpace(n: nat)
    ensures AllSpace(Spaces(n)) && '<' !in Spaces(n) && |Spaces(n)| == n
  {
    if n > 0 { BlanksAreSpace(n - 1); }
  }

  lemma StoredTextStays(policy: TextPolicy, text: string, n: nat)
    requires policy.Preserve? ==> n == 0
    ensures StoredText(policy, text, n) == text <==> TextStays(policy, text, n)
  {
    hide Trimmed, AllSpace, TrimStable, Spaces, EndsInBlanks;
    BreaksAreBlanks(policy, FirstFlush(policy, text, n == 0), n);
    TrimmedIsStable(text);
    if policy.CollapseWhitespaceOnly? && (n > 0 || text != "") {
      if AllSpace(text) {
        BlankInFront(n);
        SpaceHasNoBlanksBehind(text, n);
      } else {
        BlanksAreSpace(n + 1);
        BlanksBehind(text, n);
      }
    }
  }

  lemma SpaceHasNoBlanksBehind(text: string, n: nat)
    requires AllSpace(text)
    ensures !EndsInBlanks(text, n)
  {}

  lemma BlanksBehind(text: string, n: nat)
    requires !AllSpace(text)
    ensures Trimmed(text) + Spaces(n) == text <==> EndsInBlanks(text, n)
  {
    hide Trimmed, AllSpace, TrimStable, Spaces;
    BlanksAreSpace(n);
    TrimmedIsStable(text);
    EmptyTrimmed(text);
    if Trimmed(text) + Spaces(n) == text {
      assert text[..|text| - n] == Trimmed(text);
    }
    if EndsInBlanks(text, n) {
      var u := text[..|text| - n];
      assert text == u + Spaces(n);
      TrimmedIgnoresTrailingSpace(u, Spaces(n));
      TrimmedIsStable(u);
    }
  }
}
