/** Texts, entities, white space, errors and layout in literal characters. */
module XmlLiterals {
  import opened CStrings
  import opened Common
  import opened XmlText
  import opened XmlSerializer
  import opened XmlGrammar
  import opened XmlPolicies
  import opened XmlRoundTrip
  import opened XmlMeaning

  // The text of an element

  predicate NoData(items: seq<Item>) {
    forall i :: 0 <= i < |items| ==> !items[i].markup.Data?
  }

  function RunsOf(items: seq<Item>): seq<string> {
    if items == [] then [] else [items[0].run] + RunsOf(items[1..])
  }

  /** The runs that are not white space, without the white space around them. */
  function Words(runs: seq<string>): seq<string> {
    if runs == [] then []
    else (if White(runs[0]) then [] else [Decoded(Trimmed(runs[0]))]) + Words(runs[1..])
  }

  function Glued(runs: seq<string>): string {
    if runs == [] then "" else Decoded(runs[0]) + Glued(runs[1..])
  }

  /** The words with one blank between any two of them. */
  function Joined(words: seq<string>): string {
    if words == [] then ""
    else if |words| == 1 then words[0]
    else words[0] + (" " + Joined(words[1..]))
  }

  lemma NonEmptyDecoded(s: string)
    requires s != ""
    ensures Decoded(s) != ""
  {}

  /** Words appended to some text. */
  function Behind(text: string, words: seq<string>): string {
    if words == [] then text else if text == "" then Joined(words) else text + (" " + Joined(words))
  }

  lemma {:induction false} BehindTakesOne(text: string, word: string, words: seq<string>)
    requires word != ""
    ensures Behind(text, [word] + words) == Behind(With(text, Apart(word)), words)
  {
    assert ([word] + words)[1..] == words;
    if words != [] && text != "" {
      assert text + (" " + (word + (" " + Joined(words)))) == (text + " " + word) + (" " + Joined(words));
    }
  }

  lemma {:induction false} WordsAssembled(text: string, items: seq<Item>)
    requires NoData(items)
    ensures Assembled(text, ItemsPieces(TrimAndDiscardEmpty, items)) == Behind(text, Words(RunsOf(items)))
    decreases |items|
  {
    hide Decoded, Trimmed, AllSpace, White, Joined;
    if items != [] {
      var run := items[0].run;
      var text1 := Assembled(text, RunPieces(TrimAndDiscardEmpty, run));
      assert !items[0].markup.Data?;
      assert MarkupPieces(items[0].markup) == [];
      assert ItemsPieces(TrimAndDiscardEmpty, items) ==
             RunPieces(TrimAndDiscardEmpty, run) + ItemsPieces(TrimAndDiscardEmpty, items[1..]);
      AssembledJoined(text, RunPieces(TrimAndDiscardEmpty, run), ItemsPieces(TrimAndDiscardEmpty, items[1..]));
      assert NoData(items[1..]) by { TailHasNoData(items); }
      WordsAssembled(text1, items[1..]);
      assert RunsOf(items)[0] == run && RunsOf(items)[1..] == RunsOf(items[1..]);
      RunTaken(text, run, Words(RunsOf(items[1..])));
    }
  }

  lemma TailHasNoData(items: seq<Item>)
    requires items != [] && NoData(items)
    ensures NoData(items[1..])
  {}

  lemma RunTaken(text: string, run: string, words: seq<string>)
    ensures Behind(Assembled(text, RunPieces(TrimAndDiscardEmpty, run)), words)
         == Behind(text, (if White(run) then [] else [Decoded(Trimmed(run))]) + words)
  {
    hide Decoded, Trimmed, AllSpace, White, Behind;
    AllWhiteIsSpace(run);
    EmptyTrimmed(run);
    if White(run) {
      assert [] + words == words;
    } else {
      var word := Decoded(Trimmed(run));
      NonEmptyDecoded(Trimmed(run));
      BehindTakesOne(text, word, words);
      assert [Apart(word)][1..] == [];
    }
  }

  lemma {:induction false} PreservedAssembled(text: string, items: seq<Item>)
    requires NoData(items)
    ensures Assembled(text, ItemsPieces(Preserve, items)) == text + Glued(RunsOf(items))
    decreases |items|
  {
    hide Decoded;
    if items == [] {
      assert text + "" == text;
    } else {
      var word := Decoded(items[0].run);
      assert !items[0].markup.Data?;
      assert ItemsPieces(Preserve, items) == [Attached(word)] + ItemsPieces(Preserve, items[1..]);
      assert ItemsPieces(Preserve, items)[1..] == ItemsPieces(Preserve, items[1..]);
      TailHasNoData(items);
      PreservedAssembled(text + word, items[1..]);
      assert RunsOf(items)[0] == items[0].run && RunsOf(items)[1..] == RunsOf(items[1..]);
      Regrouped(text, word, Glued(RunsOf(items[1..])));
    }
  }

  /** By default the text of the root is all its words, in order, with single blanks between them; under `Preserve`
      it is all its runs, as they are. */
  lemma TextOfDocument(lead: string, prolog: seq<Item>, root: Markup, rest: string)
    requires White(lead) && PrologOk(prolog)
    requires root.Element? && MarkupOk(root) && root.content.Open? && NoData(root.content.items)
    ensures var s := lead + (ItemsWritten(prolog) + (Written(root) + rest));
            var runs := [root.content.run] + RunsOf(root.content.items);
            && Parse(TrimAndDiscardEmpty, s).Ok? && Parse(TrimAndDiscardEmpty, s).value.text == Joined(Words(runs))
            && Parse(Preserve, s).Ok? && Parse(Preserve, s).value.text == Glued(runs)
  {
    hide Parse, Decoded, Trimmed, AllSpace, White, MarkupOk, Written, ItemsWritten, PrologOk, RunPieces, ItemsPieces;
    var c := root.content;
    DocumentMeans(TrimAndDiscardEmpty, lead, prolog, root, rest);
    DocumentMeans(Preserve, lead, prolog, root, rest);
    FirstRunIsNoSpecial(TrimAndDiscardEmpty, c.run, c.items);
    FirstRunIsNoSpecial(Preserve, c.run, c.items);
    var items := [Item(Comment(""), c.run)] + c.items;
    assert NoData(items) by { LedHasNoData(c.run, c.items); }
    assert items[0].run == c.run && items[1..] == c.items;
    assert RunsOf(items) == [c.run] + RunsOf(c.items);
    WordsAssembled("", items);
    PreservedAssembled("", items);
    assert "" + Glued(RunsOf(items)) == Glued(RunsOf(items));
    assert Behind("", Words(RunsOf(items))) == Joined(Words(RunsOf(items)));
  }

  lemma LedHasNoData(run: string, items: seq<Item>)
    requires NoData(items)
    ensures NoData([Item(Comment(""), run)] + items)
  {}

  /** The run behind the start tag contributes like a run behind a comment. */
  lemma FirstRunIsNoSpecial(policy: TextPolicy, run: string, items: seq<Item>)
    ensures RunPieces(policy, run) + ItemsPieces(policy, items)
         == ItemsPieces(policy, [Item(Comment(""), run)] + items)
  {
    hide RunPieces;
    var all := [Item(Comment(""), run)] + items;
    assert all[1..] == items;
    assert ItemsPieces(policy, all) ==
           MarkupPieces(all[0].markup) + (RunPieces(policy, all[0].run) + ItemsPieces(policy, all[1..]));
  }

  // Entities

  predicate StartsEntity(s: string) {
    "&lt;" <= s || "&gt;" <= s || "&amp;" <= s || "&quot;" <= s || "&apos;" <= s
  }

  /** The five entities stand for their characters, and every other character for itself. */
  lemma EntitiesDecoded(c: char, s: string)
    ensures Decoded("&lt;" + s) == "<" + Decoded(s)
    ensures Decoded("&gt;" + s) == ">" + Decoded(s)
    ensures Decoded("&amp;" + s) == "&" + Decoded(s)
    ensures Decoded("&quot;" + s) == "\"" + Decoded(s)
    ensures Decoded("&apos;" + s) == "'" + Decoded(s)
    ensures !StartsEntity([c] + s) ==> Decoded([c] + s) == [c] + Decoded(s)
    ensures Decoded("") == ""
  {
    hide Decoded, StartsEntity;
    DecodeEscapedChar(InText, '<', s);
    DecodeEscapedChar(InText, '>', s);
    DecodeEscapedChar(InText, '&', s);
    DecodeEscapedChar(InAttribute, '"', s);
    DecodeEscapedChar(InAttribute, '\'', s);
    NothingDecoded();
    OtherDecoded(c, s);
  }

  lemma OtherDecoded(c: char, s: string)
    ensures !StartsEntity([c] + s) ==> Decoded([c] + s) == [c] + Decoded(s)
  {
    var t := [c] + s;
    assert t[1..] == s && t[0] == c;
    EntityIsPrefix(t);
  }

  lemma EntityIsPrefix(t: string)
    requires t != ""
    ensures !StartsEntity(t) ==> FirstDecoded(t) == (t[0], 1)
  {}

  /** Text escapes three characters, attribute values five; everything else is written as it is. */
  lemma CharactersEscaped(c: char, s: string)
    ensures Escaped(InText, [c] + s) ==
            (if c == '&' then "&amp;" else if c == '<' then "&lt;" else if c == '>' then "&gt;" else [c])
            + Escaped(InText, s)
    ensures Escaped(InAttribute, [c] + s) ==
            (if c == '&' then "&amp;" else if c == '<' then "&lt;" else if c == '>' then "&gt;"
             else if c == '"' then "&quot;" else if c == '\'' then "&apos;" else [c])
            + Escaped(InAttribute, s)
    ensures Escaped(InText, "") == "" && Escaped(InAttribute, "") == ""
  {
    hide Escaped;
    EscapedOne(InText, c, s);
    EscapedOne(InAttribute, c, s);
    EscapedHasNoMarkup(InText, "");
    EscapedHasNoMarkup(InAttribute, "");
  }

  // White space

  /** Trimming takes the white space off both ends, and nothing else. */
  lemma TrimmedBetween(a: string, t: string, b: string)
    requires White(a) && White(b)
    requires t == "" || (!IsWhite(t[0]) && !IsWhite(t[|t| - 1]))
    ensures Trimmed(a + (t + b)) == t
  {
    hide IsWhite, IsSpace;
    AllWhiteIsSpace(a);
    AllWhiteIsSpace(b);
    if t != "" {
      WhiteIsSpace(t[0]);
      WhiteIsSpace(t[|t| - 1]);
    }
    SkipSpaceOverSpace(a, t + b);
    TrimmedIgnoresTrailingSpace(t, b);
    TrimmedIsStable(t);
  }

  // Errors

  lemma {:induction false} NameLengthOfAll(name: string)
    requires NameChars(name)
    ensures NameLength(name) == |name|
  {
    if name != "" { NameLengthOfAll(name[1..]); }
  }

  lemma RawNameRead(name: string, rest: string)
    requires NameChars(name) && name != "" && (rest == "" || !IsNameChar(rest[0]))
    ensures ParseRawName(name + rest) == Ok(name, rest)
  {
    if rest == "" {
      assert name + rest == name;
      NameLengthOfAll(name);
    } else {
      RawNameConcat(name, rest);
    }
  }

  /** The name of an attribute can follow `t`, or nothing of it. */
  predicate EndsName(t: string) {
    t == "" || (!IsLetter(t[0]) && t[0] != ':')
  }

  /** A document whose start tag goes wrong behind its attributes. */
  function Broken(name: Name, attrs: seq<Attribute>, t: string): string {
    "<" + (NameText(name) + (AttributesWritten(attrs) + t))
  }

  lemma TagFails(policy: TextPolicy, name: Name, attrs: seq<Attribute>, t: string, error: XmlError)
    requires NameOk(name) && AttributesOk(attrs) && EndsName(t)
    requires forall before, ns :: ParseAttributes(t, before, ns) == Fail(error)
    ensures Parse(policy, Broken(name, attrs, t)) == Fail(error)
  {
    hide NameOk, NameText, IsLetter, ParseAttributes, SkipMisc, ParseElement, AttributesOk;
    var s := Broken(name, attrs, t);
    var after := AttributesWritten(attrs) + t;
    NameRead(name);
    TailEndsName(attrs, t);
    RawNameRead(NameText(name), after);
    assert s[1..] == NameText(name) + after && s[1] == NameText(name)[0];
    SpaceBeforeAttributes(after, map[]);
    AttributesRead(attrs, t, [], map[]);
    NotPrefix(s[1..], "/", 0);
    FailedStartTagStep(policy, s, map[], error);
    NotPrefix(s, "<?", 1);
    NotPrefix(s, "<!--", 1);
    RootAlone(policy, s);
  }

  lemma RootAlone(policy: TextPolicy, s: string)
    requires s != "" && s[0] == '<' && !StartsWith(s, "<?") && !StartsWith(s, "<!--")
    ensures Parse(policy, s) == ParseElement(policy, s, map[])
  {
    hide Parse, ParseElement;
    RootIsRead(policy, "", [], s);
    assert "" + (ItemsWritten([]) + s) == s;
  }

  lemma TailEndsName(attrs: seq<Attribute>, t: string)
    requires AttributesOk(attrs) && EndsName(t)
    ensures var s := AttributesWritten(attrs) + t; s == "" || !IsNameChar(s[0])
  {
    hide IsLetter, IsNameChar, IsSpace;
    var s := AttributesWritten(attrs) + t;
    if attrs != [] {
      var a := attrs[0];
      assert AttributeOk(a) && s[0] == a.gap[0];
      WhiteIsSpace(a.gap[0]);
      SpaceEndsName(a.gap[0]);
    } else if t != "" {
      assert s[0] == t[0];
      LettersAreNameChars(t[0]);
    }
  }

  lemma SpaceEndsName(c: char)
    ensures IsWhite(c) ==> !IsNameChar(c) && !IsLetter(c) && c != ':'
  {}

  lemma WhiteEndsName(w: string, t: string)
    requires White(w) && EndsName(t)
    ensures EndsName(w + t)
  {
    if w != "" { SpaceEndsName(w[0]); }
  }

  /** A start tag that stops in front of its end. */
  lemma TagsCutShort(policy: TextPolicy, name: Name, attrs: seq<Attribute>, pad: string, t: string)
    requires NameOk(name) && AttributesOk(attrs) && White(pad)
    ensures Parse(policy, Broken(name, attrs, pad)) == Fail(AttributeAtEnd)
    ensures (t == "" || t[0] != '>') ==> Parse(policy, Broken(name, attrs, pad + ("/" + t))) == Fail(NoTagEnd)
  {
    hide NameOk, AttributesOk, Broken, Parse, IsWhite, IsSpace, IsLetter;
    AllWhiteIsSpace(pad);
    assert pad + "" == pad;
    WhiteEndsName(pad, "");
    SkipSpaceOverSpace(pad, "");
    TagFails(policy, name, attrs, pad, AttributeAtEnd);
    if t == "" || t[0] != '>' { SlashAlone(policy, name, attrs, pad, t); }
  }

  lemma SlashAlone(policy: TextPolicy, name: Name, attrs: seq<Attribute>, pad: string, t: string)
    requires NameOk(name) && AttributesOk(attrs) && White(pad) && (t == "" || t[0] != '>')
    ensures Parse(policy, Broken(name, attrs, pad + ("/" + t))) == Fail(NoTagEnd)
  {
    hide NameOk, NameText, IsLetter, ParseAttributes, SkipMisc, AttributesOk, White;
    var tail := "/" + t;
    var s := Broken(name, attrs, pad + tail);
    var after := AttributesWritten(attrs) + (pad + tail);
    NameRead(name);
    AfterName(attrs, pad, tail);
    RawNameConcat(NameText(name), after);
    assert s[1..] == NameText(name) + after && s[1] == NameText(name)[0];
    SpaceBeforeAttributes(after, map[]);
    AttributesRead(attrs, pad + tail, [], map[]);
    AttributesEnd(pad, tail, [] + AttributesMeant(attrs, map[]), Scope(attrs, map[]));
    NotPrefix(s[1..], "/", 0);
    if t != "" { NotPrefix(tail, "/>", 1); }
    NotPrefix(tail, ">", 0);
    NotPrefix(s, "<?", 1);
    NotPrefix(s, "<!--", 1);
    RootAlone(policy, s);
  }

  /** An attribute up to its name, behind other attributes. */
  function Begun(a: Attribute, u: string): string {
    a.gap + (NameText(a.name) + (a.before + u))
  }

  /** An attribute that goes wrong: without `=`, at the end of the input, without quotes, or not closed. */
  lemma AttributesCutShort(policy: TextPolicy, name: Name, attrs: seq<Attribute>, a: Attribute, u: string)
    requires NameOk(name) && AttributesOk(attrs) && AttributeOk(a)
    ensures (u == "" || (EndsName(u) && u[0] != '=' && !IsWhite(u[0]))) ==>
              Parse(policy, Broken(name, attrs, Begun(a, u))) == Fail(MissingEquals)
    ensures Parse(policy, Broken(name, attrs, Begun(a, "=" + a.after))) == Fail(ValueAtEnd)
    ensures (u != "" && u[0] != '"' && u[0] != '\'' && !IsWhite(u[0])) ==>
              Parse(policy, Broken(name, attrs, Begun(a, "=" + (a.after + u)))) == Fail(UnquotedValue)
    ensures Parse(policy, Broken(name, attrs, Begun(a, "=" + (a.after + ([a.quote] + a.raw))))) == Fail(UnclosedValue)
  {
    hide NameOk, AttributesOk, AttributeOk, Broken, Started, Parse, IsWhite, IsSpace, IsLetter;
    if u == "" || (EndsName(u) && u[0] != '=' && !IsWhite(u[0])) {
      AttributeFails(policy, name, attrs, a, u, MissingEquals);
    }
    ValueFails(policy, name, attrs, a, "", ValueAtEnd);
    assert a.after + "" == a.after;
    if u != "" && u[0] != '"' && u[0] != '\'' && !IsWhite(u[0]) {
      ValueFails(policy, name, attrs, a, u, UnquotedValue);
    }
    QuoteOk(a);
    ValueFails(policy, name, attrs, a, [a.quote] + a.raw, UnclosedValue);
  }

  lemma QuoteOk(a: Attribute)
    requires AttributeOk(a)
    ensures (a.quote == '"' || a.quote == '\'') && a.quote !in a.raw && !IsWhite(a.quote)
  {}

  lemma AttributeFails(policy: TextPolicy, name: Name, attrs: seq<Attribute>, a: Attribute, u: string, error: XmlError)
    requires NameOk(name) && AttributesOk(attrs) && AttributeOk(a) && EndsName(u) && (u == "" || !IsWhite(u[0]))
    requires if u == "" || u[0] != '=' then error == MissingEquals else ParseAttributeValue(u[1..]) == Fail(error)
    ensures Parse(policy, Broken(name, attrs, Begun(a, u))) == Fail(error)
  {
    hide NameOk, AttributesOk, Broken, Parse, IsWhite, IsSpace, IsLetter, NameText, ParseAttributeValue, SkipSpace;
    var t := Begun(a, u);
    var body := NameText(a.name) + (a.before + u);
    NameRead(a.name);
    WhiteEndsName(a.before, u);
    if a.before + u != "" { LettersAreNameChars((a.before + u)[0]); }
    RawNameRead(NameText(a.name), a.before + u);
    AllWhiteIsSpace(a.before);
    AllWhiteIsSpace(a.gap);
    SkipSpaceOverSpace(a.before, u);
    if u != "" { WhiteIsSpace(u[0]); }
    NothingToSkip(u);
    assert body[0] == NameText(a.name)[0];
    NameStarts(body[0]);
    SkipSpaceOverSpace(a.gap, body);
    NothingToSkip(body);
    assert ParseAttribute(body) == Fail(error);
    assert forall before, ns :: ParseAttributes(t, before, ns) == Fail(error);
    SpaceEndsName(a.gap[0]);
    assert t[0] == a.gap[0] && IsWhite(a.gap[0]);
    TagFails(policy, name, attrs, t, error);
  }

  lemma NameStarts(c: char)
    ensures IsNameChar(c) ==> !IsSpace(c) && c != '/' && c != '>'
  {}

  lemma ValueFails(policy: TextPolicy, name: Name, attrs: seq<Attribute>, a: Attribute, u: string, error: XmlError)
    requires NameOk(name) && AttributesOk(attrs) && AttributeOk(a) && (u == "" || !IsWhite(u[0]))
    requires if u == "" then error == ValueAtEnd
             else if u[0] != '"' && u[0] != '\'' then error == UnquotedValue
             else error == UnclosedValue && u[0] !in u[1..]
    ensures Parse(policy, Broken(name, attrs, Begun(a, "=" + (a.after + u)))) == Fail(error)
  {
    hide NameOk, AttributesOk, Broken, Started, Parse, IsWhite, IsSpace, NameText, SkipSpace;
    assert White(a.after);
    AllWhiteIsSpace(a.after);
    SkipSpaceOverSpace(a.after, u);
    if u != "" {
      WhiteIsSpace(u[0]);
      IndexOfIsFirst(u[1..], u[0]);
    }
    NothingToSkip(u);
    var v := "=" + (a.after + u);
    assert v[1..] == a.after + u;
    WhiteIsSpace('=');
    assert EndsName(v) && !IsWhite(v[0]) by { EqualsEndsName(v); }
    AttributeFails(policy, name, attrs, a, v, error);
  }

  lemma EqualsEndsName(v: string)
    requires v != "" && v[0] == '='
    ensures EndsName(v) && !IsWhite(v[0])
  {}

  lemma PrologOnly(lead: string, prolog: seq<Item>, t: string)
    requires White(lead) && PrologOk(prolog) && (t == "" || (t[0] != '<' && !IsWhite(t[0])))
    ensures SkipMisc(lead + (ItemsWritten(prolog) + t)) == Ok((), t)
  {
    hide IsWhite, IsSpace, PrologOk, ItemsWritten;
    PrologSkipped(lead, prolog, t);
    if t != "" {
      WhiteIsSpace(t[0]);
      NotPrefix(t, "<?", 0);
      NotPrefix(t, "<!--", 0);
    }
    NothingToSkip(t);
  }

  /** Documents that have no root element, or whose root does not begin with a name. */
  lemma RootsRefused(policy: TextPolicy, lead: string, prolog: seq<Item>, c: char, t: string)
    requires White(lead) && PrologOk(prolog)
    ensures Parse(policy, "") == Fail(EmptyInput)
    ensures lead != "" || prolog != [] ==> Parse(policy, lead + (ItemsWritten(prolog) + "")) == Fail(NoRootTag)
    ensures c != '<' && !IsWhite(c) ==> Parse(policy, lead + (ItemsWritten(prolog) + ([c] + t))) == Fail(NoRootTag)
    ensures Parse(policy, lead + (ItemsWritten(prolog) + ("</" + t))) == Fail(UnexpectedEndTag)
    ensures Parse(policy, lead + (ItemsWritten(prolog) + "<")) == Fail(NameAtEnd)
    ensures EndsName([c]) && c !in "/?!" ==>
              Parse(policy, lead + (ItemsWritten(prolog) + ("<" + ([c] + t)))) == Fail(BadNameStart)
  {
    hide IsWhite, IsSpace, PrologOk, ItemsWritten, IsLetter, SkipMisc, ParseElement, Parse;
    if lead != "" || prolog != [] { NoRoot(policy, lead, prolog, ""); }
    assert ([c] + t)[0] == c;
    if c != '<' && !IsWhite(c) { NoRoot(policy, lead, prolog, [c] + t); }
    RootRefused(policy, lead, prolog, "/" + t, UnexpectedEndTag);
    assert "<" + ("/" + t) == "</" + t;
    RootRefused(policy, lead, prolog, "", NameAtEnd);
    assert "<" + "" == "<";
    if EndsName([c]) && c !in "/?!" {
      assert [c][0] == c;
      LettersAreNameChars(c);
      RootRefused(policy, lead, prolog, [c] + t, BadNameStart);
    }
    EmptyInputFails(policy);
  }

  lemma EmptyInputFails(policy: TextPolicy)
    ensures Parse(policy, "") == Fail(EmptyInput)
  {}

  lemma PrologNotEmpty(prolog: seq<Item>)
    requires prolog != []
    ensures ItemsWritten(prolog) != ""
  {}

  lemma NoRoot(policy: TextPolicy, lead: string, prolog: seq<Item>, t: string)
    requires White(lead) && PrologOk(prolog) && (t == "" || (t[0] != '<' && !IsWhite(t[0])))
    requires lead != "" || prolog != [] || t != ""
    ensures Parse(policy, lead + (ItemsWritten(prolog) + t)) == Fail(NoRootTag)
  {
    hide IsWhite, PrologOk, ItemsWritten, SkipMisc, ParseElement;
    PrologOnly(lead, prolog, t);
    if prolog != [] { PrologNotEmpty(prolog); }
    if t != "" { NotPrefix(t, "<", 0); }
  }

  lemma RootRefused(policy: TextPolicy, lead: string, prolog: seq<Item>, t: string, error: XmlError)
    requires White(lead) && PrologOk(prolog)
    requires if t == "" then error == NameAtEnd
             else if t[0] == '/' then error == UnexpectedEndTag
             else error == BadNameStart && !IsNameChar(t[0]) && t[0] != '?' && t[0] != '!'
    ensures Parse(policy, lead + (ItemsWritten(prolog) + ("<" + t))) == Fail(error)
  {
    hide IsWhite, PrologOk, ItemsWritten, Parse, IsNameChar, ParseAttributes, ParseContent;
    var s := "<" + t;
    assert s[1..] == t;
    if t != "" {
      assert s[1] == t[0];
      NotPrefix(s, "<?", 1);
      NotPrefix(s, "<!--", 1);
      if t[0] == '/' { assert t[..1] == "/"; } else { NotPrefix(t, "/", 0); }
    }
    RootIsRead(policy, lead, prolog, s);
  }

  // Errors inside an element

  lemma {:induction false} NeverClosed(body: string, close: string, error: XmlError)
    requires close != "" && forall i :: 0 <= i <= |body| ==> !(close <= body[i..])
    ensures SkipPast(body, close, error) == Fail(error)
  {
    assert body[0..] == body;
    if |body| >= |close| {
      forall i | 0 <= i <= |body| - 1 ensures !(close <= body[1..][i..]) {
        assert body[1..][i..] == body[i + 1..];
      }
      NeverClosed(body[1..], close, error);
    }
  }

  /** The start tag of an element, some content, and then `end` where its end tag should be. */
  function Unfinished(root: Markup, end: string): string
    requires root.Element? && root.content.Open?
  {
    StartTag(root.name, root.attributes, root.pad, ">" + (root.content.run + (ItemsWritten(root.content.items) + end)))
  }

  /** Content decides how an element goes wrong, whatever comes before it. */
  lemma ContentFails(policy: TextPolicy, root: Markup, end: string, error: XmlError)
    requires root.Element? && root.content.Open? && MarkupOk(root) && end != "" && end[0] == '<'
    requires forall node: XmlNode, ns :: node.name == root.name.local ==>
               ParseContent(policy, end, node, "", ns) == Fail(error)
    ensures Parse(policy, Unfinished(root, end)) == Fail(error)
  {
    hide NameOk, NameText, AttributesOk, AttributesWritten, IsWhite, ParseElement, ParseContent, Scope,
      AttributesMeant, Assembled, RunPieces, ItemsPieces, ItemsWritten, ItemsOk, ChildrenMeant, Parse;
    var c := root.content;
    var body := c.run + (ItemsWritten(c.items) + end);
    var node, inner := XmlMeaning.Started(root.name, root.attributes, map[]), Scope(root.attributes, map[]);
    RootStart(policy, root, Unfinished(root, end), ">" + body);
    PrefixOfConcat(">", body);
    StartTagRead(policy, root.name, root.attributes, root.pad, ">" + body, map[]);
    ContentRead(policy, c.run, c.items, end, node, inner);
    assert Contained(policy, c.run, c.items, node, inner).name == root.name.local;
  }

  /** Sections that are not closed. */
  lemma SectionsUnclosed(policy: TextPolicy, root: Markup, body: string)
    requires root.Element? && root.content.Open? && MarkupOk(root)
    ensures (forall i :: 0 <= i <= |body| ==> !("-->" <= body[i..])) ==>
              Parse(policy, Unfinished(root, "<!--" + body)) == Fail(UnclosedComment)
    ensures (forall i :: 0 <= i <= |body| ==> !("?>" <= body[i..])) ==>
              Parse(policy, Unfinished(root, "<?" + body)) == Fail(UnclosedInstruction)
    ensures (forall i :: 0 <= i <= |body| ==> !("]]>" <= body[i..])) ==>
              Parse(policy, Unfinished(root, "<![CDATA[" + body)) == Fail(UnclosedCData)
  {
    hide MarkupOk, Unfinished, Parse;
    if forall i :: 0 <= i <= |body| ==> !("-->" <= body[i..]) { CommentUnclosed(policy, root, body); }
    if forall i :: 0 <= i <= |body| ==> !("?>" <= body[i..]) { InstructionUnclosed(policy, root, body); }
    if forall i :: 0 <= i <= |body| ==> !("]]>" <= body[i..]) { DataUnclosed(policy, root, body); }
  }

  lemma CommentUnclosed(policy: TextPolicy, root: Markup, body: string)
    requires root.Element? && root.content.Open? && MarkupOk(root)
    requires forall i :: 0 <= i <= |body| ==> !("-->" <= body[i..])
    ensures Parse(policy, Unfinished(root, "<!--" + body)) == Fail(UnclosedComment)
  {
    hide MarkupOk, Unfinished, Parse, SkipPast, ParseElement, StartsWith;
    var s := "<!--" + body;
    MarkAtFront("<!--", body);
    NeverClosed(body, "-->", UnclosedComment);
    NotPrefix(s, "</", 1);
    ContentFails(policy, root, s, UnclosedComment);
  }

  lemma InstructionUnclosed(policy: TextPolicy, root: Markup, body: string)
    requires root.Element? && root.content.Open? && MarkupOk(root)
    requires forall i :: 0 <= i <= |body| ==> !("?>" <= body[i..])
    ensures Parse(policy, Unfinished(root, "<?" + body)) == Fail(UnclosedInstruction)
  {
    hide MarkupOk, Unfinished, Parse, SkipPast, ParseElement, StartsWith;
    var s := "<?" + body;
    MarkAtFront("<?", body);
    NeverClosed(body, "?>", UnclosedInstruction);
    NotPrefix(s, "</", 1);
    NotPrefix(s, "<!--", 1);
    ContentFails(policy, root, s, UnclosedInstruction);
  }

  lemma DataUnclosed(policy: TextPolicy, root: Markup, body: string)
    requires root.Element? && root.content.Open? && MarkupOk(root)
    requires forall i :: 0 <= i <= |body| ==> !("]]>" <= body[i..])
    ensures Parse(policy, Unfinished(root, "<![CDATA[" + body)) == Fail(UnclosedCData)
  {
    hide MarkupOk, Unfinished, Parse, SkipPast, ParseElement, StartsWith;
    var s := "<![CDATA[" + body;
    MarkAtFront("<![CDATA[", body);
    NeverClosed(body, "]]>", UnclosedCData);
    NotPrefix(s, "</", 1);
    NotPrefix(s, "<!--", 2);
    NotPrefix(s, "<?", 1);
    ContentFails(policy, root, s, UnclosedCData);
  }

  /** End tags with another name, without a name, and without their end. */
  lemma EndTagsRefused(policy: TextPolicy, root: Markup, close: Name, pad: string, c: char, t: string)
    requires root.Element? && root.content.Open? && MarkupOk(root) && NameOk(close) && White(pad)
    ensures close.local != root.name.local ==>
              Parse(policy, Unfinished(root, EndTagOf(close, pad, t))) == Fail(TagMismatch)
    ensures Parse(policy, Unfinished(root, "</")) == Fail(NameAtEnd)
    ensures EndsName([c]) ==> Parse(policy, Unfinished(root, "</" + ([c] + t))) == Fail(BadNameStart)
    ensures t == "" || (t[0] != '>' && EndsName(t) && !IsWhite(t[0])) ==>
              Parse(policy, Unfinished(root, "</" + (NameText(close) + (pad + t)))) == Fail(NoEndTagEnd)
  {
    hide MarkupOk, Unfinished, Parse, NameOk, NameText, IsWhite, IsLetter;
    if close.local != root.name.local { OtherNameFails(policy, root, close, pad, t); }
    assert "</" + "" == "</";
    EndTagFails(policy, root, "", NameAtEnd);
    if EndsName([c]) {
      assert [c][0] == c && ([c] + t)[0] == c;
      LettersAreNameChars(c);
      EndTagFails(policy, root, [c] + t, BadNameStart);
    }
    if t == "" || (t[0] != '>' && EndsName(t) && !IsWhite(t[0])) {
      EndTagUnended(policy, root, close, pad, t);
    }
  }

  lemma OtherNameFails(policy: TextPolicy, root: Markup, close: Name, pad: string, t: string)
    requires root.Element? && root.content.Open? && MarkupOk(root) && NameOk(close) && White(pad)
    requires close.local != root.name.local
    ensures Parse(policy, Unfinished(root, EndTagOf(close, pad, t))) == Fail(TagMismatch)
  {
    hide MarkupOk, Unfinished, Parse, NameOk, NameText, IsWhite, ParseContent;
    var end := EndTagOf(close, pad, t);
    assert end != "" && end[0] == '<';
    forall node: XmlNode, ns: Namespaces | node.name == root.name.local
      ensures ParseContent(policy, end, node, "", ns) == Fail(TagMismatch)
    {
      EndTagRead(policy, close, pad, t, node, ns);
    }
    ContentFails(policy, root, end, TagMismatch);
  }

  lemma EndTagFails(policy: TextPolicy, root: Markup, t: string, error: XmlError)
    requires root.Element? && root.content.Open? && MarkupOk(root)
    requires if t == "" then error == NameAtEnd
             else if !IsNameChar(t[0]) then error == BadNameStart
             else ParseRawName(t).Ok? && error == NoEndTagEnd && !StartsWith(SkipSpace(ParseRawName(t).rest), ">")
    ensures Parse(policy, Unfinished(root, "</" + t)) == Fail(error)
  {
    hide MarkupOk, Unfinished, Parse, IsNameChar, SkipSpace, StartsWith, ParseContent;
    var end := "</" + t;
    PrefixOfConcat("</", t);
    forall node: XmlNode, ns: Namespaces | node.name == root.name.local
      ensures ParseContent(policy, end, node, "", ns) == Fail(error)
    {
      EndStep(policy, end, node, ns);
    }
    ContentFails(policy, root, end, error);
  }

  lemma EndTagUnended(policy: TextPolicy, root: Markup, close: Name, pad: string, t: string)
    requires root.Element? && root.content.Open? && MarkupOk(root) && NameOk(close) && White(pad)
    requires t == "" || (t[0] != '>' && EndsName(t) && !IsWhite(t[0]))
    ensures Parse(policy, Unfinished(root, "</" + (NameText(close) + (pad + t)))) == Fail(NoEndTagEnd)
  {
    hide MarkupOk, Unfinished, Parse, NameOk, NameText, IsWhite, IsLetter, IsSpace, IsNameChar, SkipSpace;
    var raw := NameText(close) + (pad + t);
    NameRead(close);
    WhiteEndsName(pad, t);
    if pad + t != "" { LettersAreNameChars((pad + t)[0]); }
    RawNameRead(NameText(close), pad + t);
    AllWhiteIsSpace(pad);
    SkipSpaceOverSpace(pad, t);
    if t != "" {
      WhiteIsSpace(t[0]);
      NotPrefix(t, ">", 0);
    }
    NothingToSkip(t);
    assert raw[0] == NameText(close)[0];
    EndTagFails(policy, root, raw, NoEndTagEnd);
  }

  // Layout

  lemma BranchPrinted(node: XmlNode, indent: nat)
    requires node.children != [] || node.text != ""
    ensures LineOf(node, indent) ==
            Spaces(indent) + "<" + node.name + AttributesText(node.attributes) + ">" + Escaped(InText, node.text)
            + ChildrenText(node, indent) + "</" + node.name + ">\n"
  {
    hide Escaped, Spaces, AttributesText, ChildrenText;
    BranchLine("", Spaces(indent), node.name, AttributesText(node.attributes), Escaped(InText, node.text),
               ChildrenText(node, indent));
    assert "" + Spaces(indent) == Spaces(indent);
    assert AfterAttributes(node, indent) ==
           ">" + (Escaped(InText, node.text) + (ChildrenText(node, indent) + ("</" + (node.name + ">"))));
    NothingInFront(LineOf(node, indent));
  }

  lemma EmptyPrinted(name: string, indent: nat)
    ensures LineOf(XmlNode(name, "", "", "", [], []), indent) == Spaces(indent) + "<" + name + " />\n"
  {
    hide Spaces;
    var node := XmlNode(name, "", "", "", [], []);
    assert AttributesText(node.attributes) + AfterAttributes(node, indent) == " />";
    LeafLine("", Spaces(indent), name, "");
    NothingInFront(" />");
    NothingInFront(Spaces(indent));
    NothingInFront(Spaces(indent) + (ElementText(node, indent) + "\n"));
    assert Spaces(indent) + "<" + name + "" == Spaces(indent) + "<" + name;
  }

  lemma ChildrenPrinted(node: XmlNode, indent: nat)
    ensures |node.children| == 1 ==>
              ChildrenText(node, indent) == "\n" + LineOf(node.children[0], indent + 2) + Spaces(indent)
    ensures |node.children| == 2 ==>
              ChildrenText(node, indent) ==
              "\n" + LineOf(node.children[0], indent + 2) + LineOf(node.children[1], indent + 2) + Spaces(indent)
  {
    hide LineOf, Spaces;
    if |node.children| == 1 {
      assert node.children[1..] == [];
      assert LinesOf(node.children, indent + 2) == LineOf(node.children[0], indent + 2) + "";
    } else if |node.children| == 2 {
      assert node.children[1..][1..] == [] && node.children[1..][0] == node.children[1];
      assert LinesOf(node.children[1..], indent + 2) == LineOf(node.children[1], indent + 2) + "";
    }
  }

  lemma AttributePrinted(key: string, value: string)
    ensures AttributesText([XmlAttribute(key, value, "", "")]) == " " + key + "=\"" + Escaped(InAttribute, value) + "\""
  {
    hide Escaped;
    var a := XmlAttribute(key, value, "", "");
    assert [a][1..] == [];
    assert AttributesText([a]) == AttributeText(a) + "";
  }

  function Leaf(name: string, text: string): XmlNode {
    XmlNode(name, "", "", text, [], [])
  }

  lemma TextPrinted(name: string, text: string, indent: nat)
    requires text != ""
    ensures LineOf(Leaf(name, text), indent) ==
            Spaces(indent) + "<" + name + ">" + Escaped(InText, text) + "</" + name + ">\n"
  {
    hide Escaped, Spaces;
    BranchPrinted(Leaf(name, text), indent);
    var s := Spaces(indent) + "<" + name;
    assert s + AttributesText([]) == s;
    var t := s + ">" + Escaped(InText, text);
    assert ChildrenText(Leaf(name, text), indent) == "";
    assert t + "" == t;
  }

  lemma OneChildPrinted(name: string, child: string)
    ensures LineOf(XmlNode(name, "", "", "", [], [Leaf(child, "")]), 2) ==
            "  <" + name + ">\n    <" + child + " />\n  </" + name + ">\n"
  {
    hide Spaces, LineOf, ChildrenText;
    var node := XmlNode(name, "", "", "", [], [Leaf(child, "")]);
    BranchPrinted(node, 2);
    ChildrenPrinted(node, 2);
    EmptyPrinted(child, 4);
    FourBlanks();
    assert AttributesText([]) == "" && Escaped(InText, "") == "";
    OneChildJoined(name, child);
  }

  lemma OneChildJoined(name: string, child: string)
    ensures "  " + "<" + name + "" + ">" + "" + ("\n" + ("    " + "<" + child + " />\n") + "  ") + "</" + name + ">\n"
         == "  <" + name + ">\n    <" + child + " />\n  </" + name + ">\n"
  {
    assert "  " + "<" == "  <" && "\n" + ("    " + "<" + child + " />\n") == "\n    <" + child + " />\n";
    assert ">" + ("\n    <" + child + " />\n") == ">\n    <" + child + " />\n";
    assert " />\n" + "  " + "</" == " />\n  </";
  }

  /** A tree as it is printed: two blanks for each level, `/>` only for an element with nothing in it. */
  lemma TreePrinted(a: string, key: string, value: string, text: string, b: string, inside: string, c: string,
                    d: string)
    requires inside != ""
    ensures var tree := XmlNode(a, "", "", text, [XmlAttribute(key, value, "", "")],
                                [Leaf(b, inside), XmlNode(c, "", "", "", [], [Leaf(d, "")])]);
            Serialized(tree, false) ==
            "<" + a + (" " + key + "=\"" + Escaped(InAttribute, value)) + "\">" + Escaped(InText, text) + "\n"
            + "  <" + b + ">" + Escaped(InText, inside) + "</" + b + ">\n"
            + ("  <" + c + ">\n    <" + d + " />\n  </" + c + ">\n")
            + "</" + a + ">\n"
  {
    hide Escaped, Spaces, LineOf, ChildrenText, AttributesText;
    var second := XmlNode(c, "", "", "", [], [Leaf(d, "")]);
    var tree := XmlNode(a, "", "", text, [XmlAttribute(key, value, "", "")], [Leaf(b, inside), second]);
    var attribute := " " + key + "=\"" + Escaped(InAttribute, value);
    FourBlanks();
    BranchPrinted(tree, 0);
    ChildrenPrinted(tree, 0);
    AttributePrinted(key, value);
    TextPrinted(b, inside, 2);
    OneChildPrinted(c, d);
    NothingInFront(LineOf(tree, 0));
    TreeJoined(a, attribute, Escaped(InText, text), b, Escaped(InText, inside), LineOf(second, 2));
  }

  lemma TreeJoined(a: string, attribute: string, text: string, b: string, inside: string, second: string)
    ensures "" + "<" + a + (attribute + "\"") + ">" + text
            + ("\n" + ("  " + "<" + b + ">" + inside + "</" + b + ">\n") + second + "") + "</" + a + ">\n"
         == "<" + a + attribute + "\">" + text + "\n" + "  <" + b + ">" + inside + "</" + b + ">\n" + second
            + "</" + a + ">\n"
  {
    NothingInFront("<");
    QuoteClosed("<" + a, attribute);
    var s := "<" + a + attribute + "\">" + text;
    var first := "  " + "<" + b + ">" + inside + "</" + b + ">\n";
    LinesJoined(s, first, second);
    FirstJoined(s + "\n", b, inside);
  }

  lemma QuoteClosed(s: string, attribute: string)
    ensures s + (attribute + "\"") + ">" == s + attribute + "\">"
  {
    assert "\"" + ">" == "\">";
  }

  lemma LinesJoined(s: string, first: string, second: string)
    ensures s + ("\n" + first + second + "") == s + "\n" + first + second
  {}

  lemma FirstJoined(s: string, b: string, inside: string)
    ensures s + ("  " + "<" + b + ">" + inside + "</" + b + ">\n") == s + "  <" + b + ">" + inside + "</" + b + ">\n"
  {
    assert "  " + "<" == "  <";
    var t := "  <" + b + ">";
    assert s + t == s + "  <" + b + ">";
    Regrouped(s, t, inside + "</" + b + ">\n");
    assert t + (inside + "</" + b + ">\n") == t + inside + "</" + b + ">\n";
    assert (s + t) + (inside + "</" + b + ">\n") == s + t + inside + "</" + b + ">\n";
  }

  lemma DeclarationPrinted(tree: XmlNode)
    ensures Serialized(tree, true) ==
            "<?" + "xml version=\"1.0\" encoding=\"UTF-8\"" + "?>\n" + Serialized(tree, false)
  {
    hide LineOf, DeclarationBody;
    NothingInFront(LineOf(tree, 0));
    Regrouped("<?", DeclarationBody(), "?>\n");
    DeclarationIs();
  }

  lemma DeclarationIs()
    ensures DeclarationBody() == "xml version=\"1.0\" encoding=\"UTF-8\""
  {}

  lemma FourBlanks()
    ensures Spaces(0) == "" && Spaces(2) == "  " && Spaces(4) == "    "
  {
    assert Spaces(1) == " ";
    assert Spaces(3) == "   ";
  }
}
