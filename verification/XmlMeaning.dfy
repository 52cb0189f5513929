/** What documents mean, said of the document and the tree alone. */
module XmlMeaning {
  import opened CStrings
  import opened Common
  import opened XmlText
  import opened XmlSerializer
  import opened XmlGrammar
  import opened XmlPolicies
  import opened XmlRoundTrip

  // Documents as they are written

  /** A name, split at its first colon if it has one. */
  datatype Name = Plain(local: string) | Qualified(space: string, local: string)

  /** An attribute with the white space around its parts, in either kind of quotes. */
  datatype Attribute = Attribute(gap: string, name: Name, before: string, after: string, quote: char, raw: string)

  /** What can stand between two runs of text; `pad` is the white space that ends a tag. */
  datatype Markup =
    | Comment(body: string)
    | Instruction(body: string)
    | Data(body: string)
    | Element(name: Name, attributes: seq<Attribute>, pad: string, content: Content)

  datatype Content = Closed | Open(run: string, items: seq<Item>, close: Name, closePad: string)

  /** A piece of markup and the run of text behind it. */
  datatype Item = Item(markup: Markup, run: string)

  function NameText(n: Name): string {
    match n
    case Plain(local) => local
    case Qualified(space, local) => space + (":" + local)
  }

  function AttributeWritten(a: Attribute): string {
    a.gap + (NameText(a.name) + (a.before + ("=" + (a.after + ([a.quote] + (a.raw + [a.quote]))))))
  }

  function AttributesWritten(attrs: seq<Attribute>): string {
    if attrs == [] then "" else AttributeWritten(attrs[0]) + AttributesWritten(attrs[1..])
  }

  function Written(m: Markup): string
    decreases m, 0
  {
    match m
    case Comment(body) => "<!--" + (body + "-->")
    case Instruction(body) => "<?" + (body + "?>")
    case Data(body) => "<![CDATA[" + (body + "]]>")
    case Element(name, attributes, pad, content) =>
      "<" + (NameText(name) + (AttributesWritten(attributes) + (pad + ContentWritten(content))))
  }

  function ContentWritten(c: Content): string
    decreases c, 0
  {
    match c
    case Closed => "/>"
    case Open(run, items, close, closePad) =>
      ">" + (run + (ItemsWritten(items) + ("</" + (NameText(close) + (closePad + ">")))))
  }

  function ItemsWritten(items: seq<Item>): string
    decreases items, 1
  {
    if items == [] then "" else Written(items[0].markup) + (items[0].run + ItemsWritten(items[1..]))
  }

  // Which documents are well formed

  /** A small or capital ASCII letter, a digit or one of `_-.`; a name may have colons too. */
  predicate IsLetter(c: char) {
    var n := c as int;
    97 <= n <= 122 || 65 <= n <= 90 || 48 <= n <= 57 || c in "_-."
  }

  predicate NameOk(n: Name) {
    match n
    case Plain(local) => local != "" && forall i :: 0 <= i < |local| ==> IsLetter(local[i])
    case Qualified(space, local) =>
      && (forall i :: 0 <= i < |space| ==> IsLetter(space[i]))
      && (forall i :: 0 <= i < |local| ==> IsLetter(local[i]) || local[i] == ':')
  }

  predicate AttributeOk(a: Attribute) {
    && NameOk(a.name)
    && a.gap != "" && White(a.gap) && White(a.before) && White(a.after)
    && (a.quote == '"' || a.quote == '\'') && a.quote !in a.raw
  }

  predicate AttributesOk(attrs: seq<Attribute>) {
    forall i :: 0 <= i < |attrs| ==> AttributeOk(attrs[i])
  }

  predicate ClosesAt(body: string, close: string, i: nat)
    requires i <= |body|
  {
    StartsWith((body + close)[i..], close)
  }

  /** The mark that ends the section does not occur earlier. */
  predicate SectionOk(body: string, close: string) {
    forall i :: 0 <= i < |body| ==> !ClosesAt(body, close, i)
  }

  /** An end tag repeats the local name; its prefix does not matter. */
  predicate MarkupOk(m: Markup)
    decreases m, 0
  {
    match m
    case Comment(body) => SectionOk(body, "-->")
    case Instruction(body) => SectionOk(body, "?>")
    case Data(body) => SectionOk(body, "]]>")
    case Element(name, attributes, pad, content) =>
      && NameOk(name) && AttributesOk(attributes) && White(pad)
      && (content.Open? ==>
          && NameOk(content.close) && content.close.local == name.local && White(content.closePad)
          && '<' !in content.run && ItemsOk(content.items))
  }

  predicate ItemsOk(items: seq<Item>)
    decreases items, 1
  {
    items == [] || (MarkupOk(items[0].markup) && '<' !in items[0].run && ItemsOk(items[1..]))
  }

  // What they mean

  /** The prefix that an attribute declares; the empty one stands for the default namespace. */
  function DeclaredPrefix(n: Name): Option<string> {
    match n
    case Plain(local) => if local == "xmlns" then Some("") else None
    case Qualified(space, local) => if space == "xmlns" then Some(local) else None
  }

  function SpaceOf(n: Name): string {
    if n.Qualified? then n.space else ""
  }

  function UriOf(ns: Namespaces, prefix: string): string {
    if prefix in ns then ns[prefix] else ""
  }

  function ScopeAfter(a: Attribute, ns: Namespaces): Namespaces {
    match DeclaredPrefix(a.name)
    case Some(prefix) => ns[prefix := Decoded(a.raw)]
    case None => ns
  }

  /** The namespaces inside an element: the latest declaration of a prefix wins. */
  function Scope(attrs: seq<Attribute>, ns: Namespaces): Namespaces {
    if attrs == [] then ns else Scope(attrs[1..], ScopeAfter(attrs[0], ns))
  }

  /** Declarations are no attributes. The others have the namespace that their prefix has in front of them; without
      a prefix they have none. */
  function AttributesMeant(attrs: seq<Attribute>, ns: Namespaces): seq<XmlAttribute> {
    if attrs == [] then []
    else AttributeMeant(attrs[0], ns) + AttributesMeant(attrs[1..], ScopeAfter(attrs[0], ns))
  }

  function AttributeMeant(a: Attribute, ns: Namespaces): seq<XmlAttribute> {
    if DeclaredPrefix(a.name).Some? then []
    else
      var prefix := SpaceOf(a.name);
      [XmlAttribute(a.name.local, Decoded(a.raw), prefix, if prefix == "" then "" else UriOf(ns, prefix))]
  }

  /** A piece of text, with or without a blank that separates it from text before it. */
  datatype Piece = Apart(text: string) | Attached(text: string)

  /** What a run of text contributes: trimmed and decoded by default, decoded only under `Preserve`; a run of white
      space alone is one blank under `CollapseWhitespaceOnly`. */
  function RunPieces(policy: TextPolicy, run: string): seq<Piece> {
    match policy
    case TrimAndDiscardEmpty => if AllSpace(run) then [] else [Apart(Decoded(Trimmed(run)))]
    case Preserve => [Attached(Decoded(run))]
    case CollapseWhitespaceOnly =>
      if run == "" then [] else if AllSpace(run) then [Attached(" ")] else [Apart(Decoded(Trimmed(run)))]
  }

  /** Character data stands for itself, whatever the policy; other markup for no text. */
  function MarkupPieces(m: Markup): seq<Piece> {
    if m.Data? then [Apart(m.body)] else []
  }

  function ItemsPieces(policy: TextPolicy, items: seq<Item>): seq<Piece> {
    if items == [] then []
    else MarkupPieces(items[0].markup) + (RunPieces(policy, items[0].run) + ItemsPieces(policy, items[1..]))
  }

  function With(text: string, p: Piece): string {
    match p
    case Apart(s) => if text == "" then s else text + " " + s
    case Attached(s) => text + s
  }

  function Assembled(text: string, ps: seq<Piece>): string
    decreases |ps|
  {
    if ps == [] then text else Assembled(With(text, ps[0]), ps[1..])
  }

  function Meant(policy: TextPolicy, m: Markup, ns: Namespaces): XmlNode
    requires m.Element?
    decreases m, 0
  {
    var inner := Scope(m.attributes, ns);
    var space := SpaceOf(m.name);
    XmlNode(m.name.local, space, UriOf(inner, space), TextMeant(policy, m.content), AttributesMeant(m.attributes, ns),
            if m.content.Open? then ChildrenMeant(policy, m.content.items, inner) else [])
  }

  function TextMeant(policy: TextPolicy, c: Content): string {
    if c.Closed? then "" else Assembled("", RunPieces(policy, c.run) + ItemsPieces(policy, c.items))
  }

  function ChildrenMeant(policy: TextPolicy, items: seq<Item>, ns: Namespaces): seq<XmlNode>
    decreases items, 1
  {
    if items == [] then []
    else
      (if items[0].markup.Element? then [Meant(policy, items[0].markup, ns)] else [])
      + ChildrenMeant(policy, items[1..], ns)
  }

  // Characters

  lemma LettersAreNameChars(c: char)
    ensures IsNameChar(c) <==> IsLetter(c) || c == ':'
    ensures IsLetter(c) ==> c != ':'
  {}

  lemma AllWhiteIsSpace(s: string)
    ensures White(s) <==> AllSpace(s)
  {
    hide IsWhite, IsSpace;
    forall i | 0 <= i < |s| ensures IsWhite(s[i]) <==> IsSpace(s[i]) { WhiteIsSpace(s[i]); }
  }

  // Names

  lemma NameRead(n: Name)
    requires NameOk(n)
    ensures NameChars(NameText(n)) && NameText(n) != ""
    ensures LocalName(NameText(n)) == n.local && PrefixOf(NameText(n)) == SpaceOf(n)
  {
    hide IsLetter, IsNameChar;
    var raw := NameText(n);
    forall c: char ensures IsNameChar(c) <==> IsLetter(c) || c == ':' { LettersAreNameChars(c); }
    forall c: char ensures IsLetter(c) ==> c != ':' { LettersAreNameChars(c); }
    IndexOfIsFirst(raw, ':');
    match n
    case Plain(local) =>
    case Qualified(space, local) =>
      IndexOfConcat(space, ':', ":" + local);
      assert raw[|space|..] == ":" + local && raw[|space| + 1..] == local && raw[..|space|] == space;
  }

  lemma NameDeclares(n: Name, ns: Namespaces, value: string)
    requires NameOk(n)
    ensures DeclaresNamespace(NameText(n)) <==> DeclaredPrefix(n).Some?
    ensures NamespacesAfter(ns, NameText(n), value)
         == if DeclaredPrefix(n).Some? then ns[DeclaredPrefix(n).value := value] else ns
  {
    hide IsLetter, IsNameChar;
    var raw := NameText(n);
    match n
    case Plain(local) =>
      forall c: char ensures IsLetter(c) ==> c != ':' { LettersAreNameChars(c); }
      assert |raw| > 5 ==> raw[5] != ':';
      if |raw| > 5 { NotPrefix(raw, "xmlns:", 5); }
    case Qualified(space, local) =>
      forall c: char ensures IsLetter(c) ==> c != ':' { LettersAreNameChars(c); }
      assert raw[|space|] == ':';
      QualifiedStart(space, local);
  }

  /** A text with a colon begins with `xmlns:` exactly when the part before the colon is `xmlns`. */
  lemma QualifiedStart(space: string, local: string)
    requires ':' !in space
    ensures var raw := space + (":" + local);
            (StartsWith(raw, "xmlns:") <==> space == "xmlns") && (space == "xmlns" ==> raw[6..] == local)
  {
    var raw := space + (":" + local);
    assert raw[|space|] == ':';
    if space == "xmlns" {
      assert raw == "xmlns:" + local;
      PrefixOfConcat("xmlns:", local);
    }
    if StartsWith(raw, "xmlns:") {
      assert raw[..6] == "xmlns:";
      assert forall i :: 0 <= i < 6 ==> raw[i] == "xmlns:"[i];
      IndexOfIs(raw, ':', 5);
      IndexOfConcat(space, ':', ":" + local);
      assert space == raw[..5];
      assert raw[..6][..5] == raw[..5];
      assert "xmlns:"[..5] == "xmlns";
    }
  }

  // Attributes

  lemma QuotedRead(quote: char, raw: string, rest: string)
    requires quote !in raw
    ensures ParseQuoted(quote, raw + ([quote] + rest)) == Ok(Decoded(raw), rest)
  {
    hide Decoded;
    var s := raw + ([quote] + rest);
    IndexOfConcat(raw, quote, [quote] + rest);
    assert s[..|raw|] == raw && s[|raw|..] == [quote] + rest && s[|raw| + 1..] == rest;
  }

  lemma ValueRead(after: string, quote: char, raw: string, rest: string)
    requires White(after) && (quote == '"' || quote == '\'') && quote !in raw
    ensures ParseAttributeValue(after + ([quote] + (raw + ([quote] + rest)))) == Ok(Decoded(raw), rest)
  {
    hide Decoded, IsWhite, ParseQuoted;
    var body := raw + ([quote] + rest);
    AllWhiteIsSpace(after);
    SkipSpaceOverSpace(after, [quote] + body);
    assert ([quote] + body)[0] == quote && ([quote] + body)[1..] == body;
    QuotedRead(quote, raw, rest);
  }

  /** An attribute after the white space in front of it. */
  function AttributeBody(a: Attribute, rest: string): string {
    NameText(a.name) + (a.before + ("=" + (a.after + ([a.quote] + (a.raw + ([a.quote] + rest))))))
  }

  lemma AttributeByParts(a: Attribute, rest: string)
    ensures AttributeWritten(a) + rest == a.gap + AttributeBody(a, rest)
  {
    hide NameText;
  }

  lemma AttributeRead(a: Attribute, rest: string)
    requires AttributeOk(a)
    ensures ParseAttribute(AttributeBody(a, rest)) == Ok((NameText(a.name), Decoded(a.raw)), rest)
  {
    hide Decoded, IsWhite, NameOk, NameText, ParseAttributeValue, SkipSpace;
    var value := a.after + ([a.quote] + (a.raw + ([a.quote] + rest)));
    var tail := a.before + ("=" + value);
    NameRead(a.name);
    AllWhiteIsSpace(a.before);
    if a.before == "" { assert tail == "=" + value; } else { assert tail[0] == a.before[0]; }
    RawNameConcat(NameText(a.name), tail);
    SkipSpaceOverSpace(a.before, "=" + value);
    NothingToSkip("=" + value);
    assert ("=" + value)[1..] == value;
    ValueRead(a.after, a.quote, a.raw, rest);
  }

  lemma NothingToSkip(s: string)
    requires s == "" || !IsSpace(s[0])
    ensures SkipSpace(s) == s
  {}

  lemma GapSkipped(a: Attribute, rest: string)
    requires AttributeOk(a)
    ensures var s := SkipSpace(AttributeWritten(a) + rest);
            s == AttributeBody(a, rest) && s != "" && s[0] != '/' && s[0] != '>'
  {
    hide IsWhite, NameOk, NameText;
    var body := AttributeBody(a, rest);
    AttributeByParts(a, rest);
    AllWhiteIsSpace(a.gap);
    NameRead(a.name);
    assert body[0] == NameText(a.name)[0];
    SkipSpaceOverSpace(a.gap, body);
    NothingToSkip(body);
  }

  lemma AttributeTaken(a: Attribute, before: seq<XmlAttribute>, ns: Namespaces)
    requires AttributeOk(a)
    ensures AttributesAfter(before, ns, NameText(a.name), Decoded(a.raw)) == before + AttributeMeant(a, ns)
    ensures NamespacesAfter(ns, NameText(a.name), Decoded(a.raw)) == ScopeAfter(a, ns)
  {
    hide Decoded, NameOk, NameText, IsWhite, LocalName, PrefixOf, DeclaresNamespace, NamespacesAfter;
    NameRead(a.name);
    NameDeclares(a.name, ns, Decoded(a.raw));
  }

  lemma {:induction false} AttributesRead(attrs: seq<Attribute>, tail: string, before: seq<XmlAttribute>,
                                          ns: Namespaces)
    requires AttributesOk(attrs)
    ensures ParseAttributes(AttributesWritten(attrs) + tail, before, ns)
         == ParseAttributes(tail, before + AttributesMeant(attrs, ns), Scope(attrs, ns))
  {
    hide AttributeOk, AttributeWritten, AttributeBody, ParseAttribute, NameText, Decoded, IsWhite, SkipSpace,
      AttributeMeant, ScopeAfter, AttributesAfter, NamespacesAfter;
    if attrs == [] {
      assert AttributesWritten(attrs) + tail == tail;
      assert before + [] == before;
    } else {
      var a := attrs[0];
      var rest := AttributesWritten(attrs[1..]) + tail;
      assert AttributeOk(a);
      Regrouped(AttributeWritten(a), AttributesWritten(attrs[1..]), tail);
      GapSkipped(a, rest);
      AttributeRead(a, rest);
      AttributeTaken(a, before, ns);
      AttributesRead(attrs[1..], tail, before + AttributeMeant(a, ns), ScopeAfter(a, ns));
      Regrouped(before, AttributeMeant(a, ns), AttributesMeant(attrs[1..], ScopeAfter(a, ns)));
    }
  }

  lemma AttributesEnd(pad: string, tail: string, before: seq<XmlAttribute>, ns: Namespaces)
    requires White(pad) && tail != "" && (tail[0] == '/' || tail[0] == '>')
    ensures ParseAttributes(pad + tail, before, ns) == Ok((before, ns), tail)
  {
    hide IsWhite, SkipSpace;
    AllWhiteIsSpace(pad);
    SkipSpaceOverSpace(pad, tail);
    NothingToSkip(tail);
  }

  // Tags

  lemma AfterName(attrs: seq<Attribute>, pad: string, tail: string)
    requires AttributesOk(attrs) && White(pad) && tail != "" && (tail[0] == '/' || tail[0] == '>')
    ensures var s := AttributesWritten(attrs) + (pad + tail); s != "" && !IsNameChar(s[0])
  {
    var s := AttributesWritten(attrs) + (pad + tail);
    if attrs != [] {
      var a := attrs[0];
      assert AttributeOk(a) && s[0] == a.gap[0];
      WhiteIsSpace(a.gap[0]);
    } else if pad != "" {
      assert s[0] == pad[0];
      WhiteIsSpace(pad[0]);
    } else {
      assert s[0] == tail[0];
    }
  }

  /** The node of a start tag, whose content is still to come. */
  function Started(name: Name, attrs: seq<Attribute>, ns: Namespaces): XmlNode {
    var space := SpaceOf(name);
    XmlNode(name.local, space, UriOf(Scope(attrs, ns), space), "", AttributesMeant(attrs, ns), [])
  }

  /** A start tag, with what follows its white space at the end. */
  function StartTag(name: Name, attrs: seq<Attribute>, pad: string, tail: string): string {
    "<" + (NameText(name) + (AttributesWritten(attrs) + (pad + tail)))
  }

  lemma StartTagRead(policy: TextPolicy, name: Name, attrs: seq<Attribute>, pad: string, tail: string, ns: Namespaces)
    requires NameOk(name) && AttributesOk(attrs) && White(pad)
    requires StartsWith(tail, "/>") || StartsWith(tail, ">")
    ensures StartsWith(tail, "/>") ==>
              ParseElement(policy, StartTag(name, attrs, pad, tail), ns) == Ok(Started(name, attrs, ns), tail[2..])
    ensures StartsWith(tail, ">") ==>
              ParseElement(policy, StartTag(name, attrs, pad, tail), ns) ==
              ParseContent(policy, tail[1..], Started(name, attrs, ns), "", Scope(attrs, ns))
  {
    hide NameOk, NameText, AttributesOk, AttributesWritten, IsWhite, Decoded, ParseContent, ParseElement, ParseRawName,
      ParseAttributes, SkipSpace, Scope, AttributesMeant, LocalName, PrefixOf;
    assert tail != "" && (tail[0] == '/' || tail[0] == '>') by { FirstOfTail(tail); }
    var s := StartTag(name, attrs, pad, tail);
    var after := AttributesWritten(attrs) + (pad + tail);
    assert s[1..] == NameText(name) + after;
    NameRead(name);
    AfterName(attrs, pad, tail);
    RawNameConcat(NameText(name), after);
    SpaceBeforeAttributes(after, ns);
    AttributesRead(attrs, pad + tail, [], ns);
    assert [] + AttributesMeant(attrs, ns) == AttributesMeant(attrs, ns);
    AttributesEnd(pad, tail, AttributesMeant(attrs, ns), Scope(attrs, ns));
    assert s[1] == NameText(name)[0];
    assert !StartsWith(s[1..], "/") by { NotPrefix(s[1..], "/", 0); }
    StartTagStep(policy, s, ns, NameText(name), after, AttributesMeant(attrs, ns), Scope(attrs, ns), tail);
    if StartsWith(tail, ">") { NotPrefix(tail, "/>", 0); }
  }

  lemma FirstOfTail(tail: string)
    requires StartsWith(tail, "/>") || StartsWith(tail, ">")
    ensures tail != "" && (tail[0] == '/' || tail[0] == '>')
    ensures StartsWith(tail, ">") ==> tail[0] == '>'
  {
    if StartsWith(tail, "/>") { assert tail[..2][0] == tail[0]; } else { assert tail[..1][0] == tail[0]; }
  }

  lemma SpaceBeforeAttributes(s: string, ns: Namespaces)
    ensures ParseAttributes(SkipSpace(s), [], ns) == ParseAttributes(s, [], ns)
  {
    SkipSpaceIdempotent(s);
  }

  /** An end tag, with what follows it. */
  function EndTagOf(close: Name, pad: string, rest: string): string {
    "</" + (NameText(close) + (pad + (">" + rest)))
  }

  /** Only the local name of an end tag has to agree. */
  lemma EndTagRead(policy: TextPolicy, close: Name, pad: string, rest: string, node: XmlNode, ns: Namespaces)
    requires NameOk(close) && White(pad)
    ensures ParseContent(policy, EndTagOf(close, pad, rest), node, "", ns)
         == if close.local == node.name then Ok(node, rest) else Fail(TagMismatch)
  {
    hide NameOk, NameText, IsWhite, LocalName, PrefixOf, ParseRawName, SkipSpace;
    var s := EndTagOf(close, pad, rest);
    var after := pad + (">" + rest);
    NameRead(close);
    AfterName([], pad, ">" + rest);
    assert AttributesWritten([]) + after == after;
    RawNameConcat(NameText(close), after);
    AllWhiteIsSpace(pad);
    SkipSpaceOverSpace(pad, ">" + rest);
    NothingToSkip(">" + rest);
    PrefixOfConcat("</", NameText(close) + after);
    PrefixOfConcat(">", rest);
    EndStep(policy, s, node, ns);
  }

  // Sections

  lemma {:induction false} SectionRead(body: string, close: string, rest: string, error: XmlError)
    requires close != "" && SectionOk(body, close)
    ensures SkipPast(body + (close + rest), close, error) == Ok(body, rest)
  {
    var s := body + (close + rest);
    if body == "" {
      assert s == close + rest;
      PrefixOfConcat(close, rest);
    } else {
      assert s[1..] == body[1..] + (close + rest);
      SectionTail(body, close);
      SectionRead(body[1..], close, rest, error);
      assert !StartsWith(s, close) by {
        assert !ClosesAt(body, close, 0);
        assert s[..|close|] == (body + close)[0..][..|close|];
      }
      assert [s[0]] + body[1..] == body;
    }
  }

  lemma SectionTail(body: string, close: string)
    requires body != "" && SectionOk(body, close)
    ensures SectionOk(body[1..], close)
  {
    forall i | 0 <= i < |body| - 1 ensures !ClosesAt(body[1..], close, i) {
      assert !ClosesAt(body, close, i + 1);
      assert (body[1..] + close)[i..] == (body + close)[i + 1..];
    }
  }

  // Content

  lemma {:induction false} AssembledJoined(text: string, a: seq<Piece>, b: seq<Piece>)
    ensures Assembled(text, a + b) == Assembled(Assembled(text, a), b)
    decreases |a|
  {
    if a == [] {
      assert a + b == b;
    } else {
      assert (a + b)[1..] == a[1..] + b;
      AssembledJoined(With(text, a[0]), a[1..], b);
    }
  }

  lemma FlushedIsAssembled(policy: TextPolicy, text: string, run: string)
    ensures Flushed(policy, text, run) == Assembled(text, RunPieces(policy, run))
  {
    hide Decoded, Trimmed, AllSpace;
    EmptyTrimmed(run);
    NothingDecoded();
    NothingIsSpace();
    assert text + "" == text;
    var ps := RunPieces(policy, run);
    if ps != [] { assert ps[1..] == []; }
  }

  lemma RunRead(policy: TextPolicy, run: string, s: string, node: XmlNode, ns: Namespaces)
    requires '<' !in run && (s == "" || s[0] == '<')
    ensures ParseContent(policy, run + s, node, "", ns)
         == ParseContent(policy, s, node.(text := Assembled(node.text, RunPieces(policy, run))), "", ns)
  {
    hide ParseContent, RunPieces, Assembled, Flushed;
    FlushedIsAssembled(policy, node.text, run);
    if s == "" {
      assert run + s == run;
      LastRun(policy, run, node, ns);
    } else {
      FlushFirst(policy, s, node, run, ns);
      if run == "" { assert run + s == s; } else { TextRun(policy, run, s, node, ns); }
    }
  }

  lemma LastRun(policy: TextPolicy, run: string, node: XmlNode, ns: Namespaces)
    requires '<' !in run
    ensures var node1 := node.(text := Flushed(policy, node.text, run));
            ParseContent(policy, run, node, "", ns) == ParseContent(policy, "", node1, "", ns) == Ok(node1, "")
  {
    IndexOfIsFirst(run, '<');
    var node1 := node.(text := Flushed(policy, node.text, run));
    assert Flushed(policy, node1.text, "") == node1.text;
    if run != "" {
      assert run[|run|..] == "" && "" + run[..|run|] == run;
      assert ParseContent(policy, "", node, run, ns) == Ok(node1, "");
    }
  }

  lemma CommentStep(policy: TextPolicy, s: string, node: XmlNode, ns: Namespaces, body: string, rest: string)
    requires s != "" && s[0] == '<' && StartsWith(s, "<!--") && !StartsWith(s, "</")
    requires SkipPast(s[4..], "-->", UnclosedComment) == Ok(body, rest)
    ensures ParseContent(policy, s, node, "", ns) == ParseContent(policy, rest, node, "", ns)
  {
    hide SkipPast, ParseElement, ParseEndTag;
    assert Flushed(policy, node.text, "") == node.text;
  }

  lemma InstructionStep(policy: TextPolicy, s: string, node: XmlNode, ns: Namespaces, body: string, rest: string)
    requires s != "" && s[0] == '<' && StartsWith(s, "<?") && !StartsWith(s, "</") && !StartsWith(s, "<!--")
    requires SkipPast(s[2..], "?>", UnclosedInstruction) == Ok(body, rest)
    ensures ParseContent(policy, s, node, "", ns) == ParseContent(policy, rest, node, "", ns)
  {
    hide SkipPast, ParseElement, ParseEndTag;
    assert Flushed(policy, node.text, "") == node.text;
  }

  lemma DataStep(policy: TextPolicy, s: string, node: XmlNode, ns: Namespaces, body: string, rest: string)
    requires s != "" && s[0] == '<' && StartsWith(s, "<![CDATA[")
    requires !StartsWith(s, "</") && !StartsWith(s, "<!--") && !StartsWith(s, "<?")
    requires SkipPast(s[9..], "]]>", UnclosedCData) == Ok(body, rest)
    ensures ParseContent(policy, s, node, "", ns)
         == ParseContent(policy, rest, node.(text := With(node.text, Apart(body))), "", ns)
  {
    hide SkipPast, ParseElement, ParseEndTag;
    assert Flushed(policy, node.text, "") == node.text;
    assert "" + body == body;
  }

  /** A mark at the front of the text, and its first three characters. */
  lemma MarkAtFront(mark: string, rest: string)
    requires |mark| >= 2
    ensures var s := mark + rest;
            StartsWith(s, mark) && s[|mark|..] == rest && s[0] == mark[0] && s[1] == mark[1] &&
            (|mark| > 2 ==> s[2] == mark[2])
  {
    PrefixOfConcat(mark, rest);
  }

  lemma SectionMeans(policy: TextPolicy, m: Markup, rest: string, node: XmlNode, ns: Namespaces)
    requires !m.Element? && MarkupOk(m)
    ensures ParseContent(policy, Written(m) + rest, node, "", ns)
         == ParseContent(policy, rest, node.(text := Assembled(node.text, MarkupPieces(m))), "", ns)
  {
    hide SectionOk, SkipPast, ParseContent, StartsWith;
    var s := Written(m) + rest;
    match m
    case Comment(body) =>
      assert s == "<!--" + (body + ("-->" + rest));
      MarkAtFront("<!--", body + ("-->" + rest));
      SectionRead(body, "-->", rest, UnclosedComment);
      NotPrefix(s, "</", 1);
      CommentStep(policy, s, node, ns, body, rest);
    case Instruction(body) =>
      assert s == "<?" + (body + ("?>" + rest));
      MarkAtFront("<?", body + ("?>" + rest));
      SectionRead(body, "?>", rest, UnclosedInstruction);
      NotPrefix(s, "</", 1);
      NotPrefix(s, "<!--", 1);
      InstructionStep(policy, s, node, ns, body, rest);
    case Data(body) =>
      assert s == "<![CDATA[" + (body + ("]]>" + rest));
      MarkAtFront("<![CDATA[", body + ("]]>" + rest));
      SectionRead(body, "]]>", rest, UnclosedCData);
      NotPrefix(s, "</", 1);
      NotPrefix(s, "<!--", 2);
      NotPrefix(s, "<?", 1);
      DataStep(policy, s, node, ns, body, rest);
      assert [Apart(body)][1..] == [];
  }

  /** The node after some content: text assembled and children appended. */
  function Grown(node: XmlNode, pieces: seq<Piece>, children: seq<XmlNode>): XmlNode {
    node.(text := Assembled(node.text, pieces), children := node.children + children)
  }

  lemma GrownTwice(node: XmlNode, a: seq<Piece>, b: seq<Piece>, c: seq<XmlNode>, d: seq<XmlNode>)
    ensures Grown(Grown(node, a, c), b, d) == Grown(node, a + b, c + d)
  {
    hide Assembled;
    AssembledJoined(node.text, a, b);
    Regrouped(node.children, c, d);
  }

  function MarkupChildren(policy: TextPolicy, m: Markup, ns: Namespaces): seq<XmlNode> {
    if m.Element? then [Meant(policy, m, ns)] else []
  }

  /** A well-formed element in front of any text is read as the node that it means. */
  lemma {:induction false} ElementRead(policy: TextPolicy, m: Markup, ns: Namespaces, rest: string)
    requires m.Element? && MarkupOk(m)
    ensures ParseElement(policy, Written(m) + rest, ns) == Ok(Meant(policy, m, ns), rest)
    decreases m, 0
  {
    hide NameOk, NameText, AttributesOk, AttributesWritten, IsWhite, Decoded, ParseElement, ParseContent, Scope,
      AttributesMeant, Assembled, RunPieces, ItemsPieces, ItemsWritten, ItemsOk, ChildrenMeant;
    var tail := ContentWritten(m.content) + rest;
    var node := Started(m.name, m.attributes, ns);
    assert Written(m) + rest == StartTag(m.name, m.attributes, m.pad, tail);
    match m.content
    case Closed =>
      PrefixOfConcat("/>", rest);
      StartTagRead(policy, m.name, m.attributes, m.pad, tail, ns);
    case Open(run, items, close, closePad) =>
      var body := run + (ItemsWritten(items) + EndTagOf(close, closePad, rest));
      assert tail == ">" + body;
      PrefixOfConcat(">", body);
      StartTagRead(policy, m.name, m.attributes, m.pad, tail, ns);
      var end := EndTagOf(close, closePad, rest);
      assert end != "" && end[0] == '<';
      ContentRead(policy, run, items, end, node, Scope(m.attributes, ns));
      EndTagRead(policy, close, closePad, rest, Contained(policy, run, items, node, Scope(m.attributes, ns)),
                 Scope(m.attributes, ns));
      assert [] + ChildrenMeant(policy, items, Scope(m.attributes, ns)) ==
             ChildrenMeant(policy, items, Scope(m.attributes, ns));
  }

  /** The node with its text and children read, up to an end tag or the end of the input. */
  function Contained(policy: TextPolicy, run: string, items: seq<Item>, node: XmlNode, ns: Namespaces): XmlNode {
    Grown(node, RunPieces(policy, run) + ItemsPieces(policy, items), ChildrenMeant(policy, items, ns))
  }

  lemma {:induction false} ContentRead(policy: TextPolicy, run: string, items: seq<Item>, end: string, node: XmlNode,
                                       ns: Namespaces)
    requires '<' !in run && ItemsOk(items) && (end == "" || end[0] == '<')
    ensures ParseContent(policy, run + (ItemsWritten(items) + end), node, "", ns)
         == ParseContent(policy, end, Contained(policy, run, items, node, ns), "", ns)
    decreases items, 1
  {
    hide Decoded, ParseContent, Assembled, AllSpace, Trimmed, MarkupOk, Written, Meant, RunPieces;
    var node1 := Grown(node, RunPieces(policy, run), []);
    assert node.children + [] == node.children;
    if items == [] {
      assert ItemsWritten(items) + end == end;
      RunRead(policy, run, end, node, ns);
      assert RunPieces(policy, run) + [] == RunPieces(policy, run);
    } else {
      var m := items[0].markup;
      var after := items[0].run + (ItemsWritten(items[1..]) + end);
      var node2 := Grown(node1, MarkupPieces(m), MarkupChildren(policy, m, ns));
      assert ItemsWritten(items) + end == Written(m) + after;
      MarkupStart(m, after);
      RunRead(policy, run, Written(m) + after, node, ns);
      MarkupRead(policy, m, after, node1, ns);
      ContentRead(policy, items[0].run, items[1..], end, node2, ns);
      ContentGrows(policy, run, items, node, ns);
    }
  }

  lemma MarkupStart(m: Markup, after: string)
    ensures var s := Written(m) + after; s != "" && s[0] == '<'
  {}

  lemma {:induction false} MarkupRead(policy: TextPolicy, m: Markup, after: string, node: XmlNode, ns: Namespaces)
    requires MarkupOk(m)
    ensures ParseContent(policy, Written(m) + after, node, "", ns)
         == ParseContent(policy, after, Grown(node, MarkupPieces(m), MarkupChildren(policy, m, ns)), "", ns)
    decreases m, 1
  {
    hide ParseContent, ParseElement, Written, MarkupOk, Meant;
    if m.Element? {
      ElementRead(policy, m, ns, after);
      ElementStart(m, after);
      ChildStep(policy, Written(m) + after, node, ns, Meant(policy, m, ns), after);
    } else {
      SectionMeans(policy, m, after, node, ns);
      assert node.children + [] == node.children;
    }
  }

  lemma ElementStart(m: Markup, after: string)
    requires m.Element? && MarkupOk(m)
    ensures var s := Written(m) + after;
            s != "" && s[0] == '<' &&
            !StartsWith(s, "</") && !StartsWith(s, "<!--") && !StartsWith(s, "<?") && !StartsWith(s, "<![CDATA[")
  {
    hide NameOk, NameText;
    var tail := AttributesWritten(m.attributes) + (m.pad + (ContentWritten(m.content) + after));
    assert Written(m) + after == "<" + (NameText(m.name) + tail);
    assert ContentWritten(m.content) != "";
    NameRead(m.name);
    ElementIsNoOtherMarkup(Written(m) + after, NameText(m.name), tail);
  }

  lemma ContentGrows(policy: TextPolicy, run: string, items: seq<Item>, node: XmlNode, ns: Namespaces)
    requires items != []
    ensures var m := items[0].markup;
            var node1 := Grown(node, RunPieces(policy, run), []);
            var node2 := Grown(node1, MarkupPieces(m), MarkupChildren(policy, m, ns));
            Grown(node2, RunPieces(policy, items[0].run) + ItemsPieces(policy, items[1..]),
                  ChildrenMeant(policy, items[1..], ns)) ==
            Grown(node, RunPieces(policy, run) + ItemsPieces(policy, items), ChildrenMeant(policy, items, ns))
  {
    hide Grown, RunPieces, Meant;
    var m := items[0].markup;
    var p, q := RunPieces(policy, run), RunPieces(policy, items[0].run) + ItemsPieces(policy, items[1..]);
    var c, d := MarkupChildren(policy, m, ns), ChildrenMeant(policy, items[1..], ns);
    GrownTwice(node, p, MarkupPieces(m), [], c);
    GrownTwice(node, p + MarkupPieces(m), q, [] + c, d);
    assert (p + MarkupPieces(m)) + q == p + (MarkupPieces(m) + q);
    assert [] + c + d == c + d;
  }

  // Whole documents

  /** Comments and instructions with white space between them, as in front of a root element. */
  predicate PrologOk(prolog: seq<Item>) {
    prolog == [] ||
    (var m := prolog[0].markup;
     (m.Comment? || m.Instruction?) && MarkupOk(m) && White(prolog[0].run) && PrologOk(prolog[1..]))
  }

  lemma MiscOverSpace(w: string, s: string)
    requires White(w)
    ensures SkipMisc(w + s) == SkipMisc(s)
  {
    hide IsWhite, SkipPast;
    AllWhiteIsSpace(w);
    SkipSpaceOverSpace(w, s);
  }

  lemma MiscOverSection(m: Markup, after: string)
    requires (m.Comment? || m.Instruction?) && MarkupOk(m)
    ensures SkipMisc(Written(m) + after) == SkipMisc(after)
  {
    hide SectionOk, SkipPast, StartsWith;
    var s := Written(m) + after;
    if m.Comment? {
      assert s == "<!--" + (m.body + ("-->" + after));
      MarkAtFront("<!--", m.body + ("-->" + after));
      SectionRead(m.body, "-->", after, UnclosedComment);
      NotPrefix(s, "<?", 1);
    } else {
      assert s == "<?" + (m.body + ("?>" + after));
      MarkAtFront("<?", m.body + ("?>" + after));
      SectionRead(m.body, "?>", after, UnclosedInstruction);
    }
    NothingToSkip(s);
  }

  lemma {:induction false} PrologSkipped(lead: string, prolog: seq<Item>, s: string)
    requires White(lead) && PrologOk(prolog)
    ensures SkipMisc(lead + (ItemsWritten(prolog) + s)) == SkipMisc(s)
    decreases |prolog|
  {
    hide SkipMisc, IsWhite, MarkupOk, Written;
    MiscOverSpace(lead, ItemsWritten(prolog) + s);
    if prolog == [] {
      assert ItemsWritten(prolog) + s == s;
    } else {
      var m, after := prolog[0].markup, prolog[0].run + (ItemsWritten(prolog[1..]) + s);
      assert ItemsWritten(prolog) + s == Written(m) + after;
      MiscOverSection(m, after);
      PrologSkipped(prolog[0].run, prolog[1..], s);
    }
  }

  /** What is in front of the root element changes nothing. */
  lemma RootIsRead(policy: TextPolicy, lead: string, prolog: seq<Item>, s: string)
    requires White(lead) && PrologOk(prolog)
    requires s != "" && s[0] == '<' && !StartsWith(s, "<?") && !StartsWith(s, "<!--")
    ensures Parse(policy, lead + (ItemsWritten(prolog) + s)) == ParseElement(policy, s, map[])
  {
    hide ParseElement, ItemsWritten, PrologOk, IsWhite;
    PrologSkipped(lead, prolog, s);
    NothingToSkip(s);
    assert s[..1] == "<";
  }

  /** A document is read as the tree that it means; what follows the root element is left over. */
  lemma DocumentMeans(policy: TextPolicy, lead: string, prolog: seq<Item>, root: Markup, rest: string)
    requires White(lead) && PrologOk(prolog) && root.Element? && MarkupOk(root)
    ensures Parse(policy, lead + (ItemsWritten(prolog) + (Written(root) + rest)))
         == Ok(Meant(policy, root, map[]), rest)
  {
    hide Parse, ParseElement, Written, MarkupOk, Meant, PrologOk, IsWhite;
    ElementStart(root, rest);
    RootIsRead(policy, lead, prolog, Written(root) + rest);
    ElementRead(policy, root, map[], rest);
  }

  /** A root element that the input ends in is read as if its end tag followed. */
  lemma UnclosedElementMeans(policy: TextPolicy, root: Markup)
    requires root.Element? && root.content.Open? && MarkupOk(root)
    ensures Parse(policy, StartTag(root.name, root.attributes, root.pad,
                                   ">" + (root.content.run + ItemsWritten(root.content.items))))
         == Ok(Meant(policy, root, map[]), "")
  {
    hide NameOk, NameText, AttributesOk, AttributesWritten, IsWhite, Decoded, ParseElement, ParseContent, Scope,
      AttributesMeant, Assembled, RunPieces, ItemsPieces, ItemsWritten, ItemsOk, ChildrenMeant;
    var c := root.content;
    var ns: Namespaces := map[];
    var inner := Scope(root.attributes, ns);
    var s := StartTag(root.name, root.attributes, root.pad, ">" + (c.run + ItemsWritten(c.items)));
    RootStart(policy, root, s, ">" + (c.run + ItemsWritten(c.items)));
    PrefixOfConcat(">", c.run + ItemsWritten(c.items));
    StartTagRead(policy, root.name, root.attributes, root.pad, ">" + (c.run + ItemsWritten(c.items)), ns);
    ContentRead(policy, c.run, c.items, "", Started(root.name, root.attributes, ns), inner);
    assert ItemsWritten(c.items) + "" == ItemsWritten(c.items);
    InputEnds(policy, Contained(policy, c.run, c.items, Started(root.name, root.attributes, ns), inner), inner);
    assert [] + ChildrenMeant(policy, c.items, inner) == ChildrenMeant(policy, c.items, inner);
  }

  lemma InputEnds(policy: TextPolicy, node: XmlNode, ns: Namespaces)
    ensures ParseContent(policy, "", node, "", ns) == Ok(node, "")
  {
    assert Flushed(policy, node.text, "") == node.text;
  }

  lemma RootStart(policy: TextPolicy, root: Markup, s: string, tail: string)
    requires root.Element? && NameOk(root.name) && tail != ""
    requires s == StartTag(root.name, root.attributes, root.pad, tail)
    ensures Parse(policy, s) == ParseElement(policy, s, map[])
  {
    hide NameOk, NameText, ParseElement, AttributesWritten;
    NameRead(root.name);
    ElementIsNoOtherMarkup(s, NameText(root.name), AttributesWritten(root.attributes) + (root.pad + tail));
    assert White("") && PrologOk([]);
    RootIsRead(policy, "", [], s);
    assert "" + (ItemsWritten([]) + s) == s;
  }
}
