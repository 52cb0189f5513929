/** Parsing a printed tree. */
module XmlRoundTrip {
  import opened CStrings
  import opened Common
  import opened XmlText
  import opened XmlSerializer
  import opened XmlGrammar
  import opened XmlPolicies

  // Trees the printer can write so that the parser reads them

  predicate NameChars(s: string) {
    forall i :: 0 <= i < |s| ==> IsNameChar(s[i])
  }

  predicate AttributeNameChars(attrs: seq<XmlAttribute>) {
    forall i :: 0 <= i < |attrs| ==> NameChars(attrs[i].name)
  }

  predicate AttributesNamed(attrs: seq<XmlAttribute>) {
    forall i :: 0 <= i < |attrs| ==> attrs[i].name != ""
  }

  /** Every name of the tree is made of name characters. */
  predicate AllNameChars(node: XmlNode)
    decreases node, 0
  {
    NameChars(node.name) && AttributeNameChars(node.attributes) && ListNameChars(node.children)
  }

  predicate ListNameChars(nodes: seq<XmlNode>)
    decreases nodes, 1
  {
    nodes == [] || (AllNameChars(nodes[0]) && ListNameChars(nodes[1..]))
  }

  /** No name of the tree is empty. */
  predicate AllNamed(node: XmlNode)
    decreases node, 0
  {
    node.name != "" && AttributesNamed(node.attributes) && ListNamed(node.children)
  }

  predicate ListNamed(nodes: seq<XmlNode>)
    decreases nodes, 1
  {
    nodes == [] || (AllNamed(nodes[0]) && ListNamed(nodes[1..]))
  }

  // What comes back

  function ReparsedAttributes(attrs: seq<XmlAttribute>, before: seq<XmlAttribute>, ns: Namespaces)
    : (seq<XmlAttribute>, Namespaces)
  {
    if attrs == [] then (before, ns)
    else
      var a := attrs[0];
      ReparsedAttributes(attrs[1..], AttributesAfter(before, ns, a.name, a.value), NamespacesAfter(ns, a.name, a.value))
  }

  /** Texts become what the policy stores, names are split at their first colon, and attributes that declare
      a namespace are taken out of the list and give the elements below their URIs. */
  function Reparsed(policy: TextPolicy, node: XmlNode, ns: Namespaces): XmlNode
    decreases node, 0
  {
    var (attrs, inner) := ReparsedAttributes(node.attributes, [], ns);
    StartOfNode(node.name, attrs, inner).(text := StoredText(policy, node.text, |node.children|),
                                          children := ReparsedList(policy, node.children, inner))
  }

  function ReparsedList(policy: TextPolicy, nodes: seq<XmlNode>, ns: Namespaces): seq<XmlNode>
    decreases nodes, 1
  {
    if nodes == [] then [] else [Reparsed(policy, nodes[0], ns)] + ReparsedList(policy, nodes[1..], ns)
  }

  // Tokens

  lemma {:induction false} NameLengthConcat(name: string, rest: string)
    requires NameChars(name) && (rest == "" || !IsNameChar(rest[0]))
    ensures NameLength(name + rest) == |name|
  {
    if name == "" {
      assert name + rest == rest;
    } else {
      NameLengthConcat(name[1..], rest);
      assert (name + rest)[1..] == name[1..] + rest;
    }
  }

  lemma RawNameConcat(name: string, rest: string)
    requires NameChars(name) && rest != "" && !IsNameChar(rest[0])
    ensures ParseRawName(name + rest) == if name == "" then Fail(BadNameStart) else Ok(name, rest)
  {
    NameLengthConcat(name, rest);
    if name == "" {
      assert name + rest == rest;
    } else {
      assert (name + rest)[..|name|] == name && (name + rest)[|name|..] == rest;
    }
  }

  lemma PrefixOfConcat(p: string, rest: string)
    ensures StartsWith(p + rest, p) && (p + rest)[|p|..] == rest
  {}

  lemma {:induction false} SkipSpaceIdempotent(s: string)
    ensures SkipSpace(SkipSpace(s)) == SkipSpace(s)
  {
    SkipSpaceShape(s);
  }

  // Attributes

  lemma QuotedValueStep(body: string)
    ensures ParseAttributeValue("\"" + body) == ParseQuoted('"', body)
  {
    var s := "\"" + body;
    assert s[0] == '"' && s[1..] == body;
  }

  lemma AttributeValueConcat(value: string, rest: string)
    ensures ParseQuoted('"', Escaped(InAttribute, value) + ("\"" + rest)) == Ok(value, rest)
  {
    hide Escaped, Decoded, IndexOf;
    var e := Escaped(InAttribute, value);
    var body := e + ("\"" + rest);
    EscapedHasNoMarkup(InAttribute, value);
    IndexOfConcat(e, '"', "\"" + rest);
    assert body[..|e|] == e && body[|e| + 1..] == rest;
    DecodeEscaped(InAttribute, value, "");
    NothingDecoded();
    assert e + "" == e && value + "" == value;
  }

  lemma AttributeTextByParts(a: XmlAttribute, rest: string)
    ensures AttributeText(a) + rest ==
            " " + (a.name + ("=" + ("\"" + (Escaped(InAttribute, a.value) + ("\"" + rest)))))
  {
    assert "=\"" == "=" + "\"";
  }

  lemma AttributeConcat(a: XmlAttribute, rest: string)
    requires NameChars(a.name)
    ensures ParseAttribute((AttributeText(a) + rest)[1..]) ==
            if a.name == "" then Fail(BadNameStart) else Ok((a.name, a.value), rest)
  {
    var quoted := "\"" + (Escaped(InAttribute, a.value) + ("\"" + rest));
    var after := "=" + quoted;
    AttributeTextByParts(a, rest);
    assert (AttributeText(a) + rest)[1..] == a.name + after;
    RawNameConcat(a.name, after);
    assert !IsSpace(after[0]) && after[1..] == quoted;
    QuotedValueStep(Escaped(InAttribute, a.value) + ("\"" + rest));
    AttributeValueConcat(a.value, rest);
  }

  /** The start of what follows the attributes: a blank before "/>", or '>'. */
  predicate EndsAttributes(tail: string) {
    StartsWith(tail, " />") || StartsWith(tail, ">")
  }

  lemma {:induction false} AttributesConcat(attrs: seq<XmlAttribute>, tail: string, before: seq<XmlAttribute>,
                                            ns: Namespaces)
    requires AttributeNameChars(attrs) && EndsAttributes(tail)
    ensures ParseAttributes(AttributesText(attrs) + tail, before, ns) ==
            if AttributesNamed(attrs) then Ok(ReparsedAttributes(attrs, before, ns), SkipSpace(tail))
            else Fail(BadNameStart)
  {
    if attrs == [] {
      assert AttributesText(attrs) + tail == tail;
      BlankBeforeSlash(tail);
    } else {
      var a := attrs[0];
      var rest := AttributesText(attrs[1..]) + tail;
      var s := AttributesText(attrs) + tail;
      Regrouped(AttributeText(a), AttributesText(attrs[1..]), tail);
      AttributeConcat(a, rest);
      AttributeStart(a, rest);
      if a.name != "" {
        AttributesConcat(attrs[1..], tail, AttributesAfter(before, ns, a.name, a.value),
                         NamespacesAfter(ns, a.name, a.value));
        assert AttributesNamed(attrs) <==> AttributesNamed(attrs[1..]) by {
          assert forall i :: 0 <= i < |attrs| - 1 ==> attrs[1..][i] == attrs[i + 1];
        }
      } else {
        assert !AttributesNamed(attrs);
      }
    }
  }

  lemma AttributeStart(a: XmlAttribute, rest: string)
    requires NameChars(a.name)
    ensures var s := AttributeText(a) + rest;
            SkipSpace(s) == s[1..] && s[1..] != "" && s[1] != '/' && s[1] != '>'
  {
    AttributeTextByParts(a, rest);
    assert (AttributeText(a) + rest)[1] == if a.name == "" then '=' else a.name[0];
  }

  lemma BlankBeforeSlash(tail: string)
    requires EndsAttributes(tail)
    ensures var t := SkipSpace(tail); t != "" && (t[0] == '/' || t[0] == '>')
    ensures StartsWith(tail, " />") ==> SkipSpace(tail) == tail[1..]
    ensures StartsWith(tail, ">") ==> SkipSpace(tail) == tail
  {
    if StartsWith(tail, " />") {
      assert tail[0] == tail[..3][0] && tail[1] == tail[..3][1];
      assert tail[1..][0] == '/';
    } else {
      assert tail[0] == tail[..1][0];
    }
  }

  // Content

  lemma TextRun(policy: TextPolicy, run: string, s: string, node: XmlNode, ns: Namespaces)
    requires run != "" && '<' !in run && s != "" && s[0] == '<'
    ensures ParseContent(policy, run + s, node, "", ns) ==
            ParseContent(policy, s, node, run, ns)
  {
    IndexOfConcat(run, '<', s);
    assert (run + s)[|run|..] == s && (run + s)[..|run|] == run;
    assert "" + run == run;
  }

  lemma FlushFirst(policy: TextPolicy, s: string, node: XmlNode, raw: string, ns: Namespaces)
    requires s != "" && s[0] == '<'
    ensures ParseContent(policy, s, node, raw, ns) ==
            ParseContent(policy, s, node.(text := Flushed(policy, node.text, raw)), "", ns)
  {}

  lemma ChildStep(policy: TextPolicy, s: string, node: XmlNode, ns: Namespaces, child: XmlNode, rest: string)
    requires s != "" && s[0] == '<'
    requires !StartsWith(s, "</") && !StartsWith(s, "<!--") && !StartsWith(s, "<?") && !StartsWith(s, "<![CDATA[")
    requires ParseElement(policy, s, ns) == Ok(child, rest)
    ensures ParseContent(policy, s, node, "", ns) ==
            ParseContent(policy, rest, node.(children := node.children + [child]), "", ns)
  {}

  lemma FailedChildStep(policy: TextPolicy, s: string, node: XmlNode, ns: Namespaces, error: XmlError)
    requires s != "" && s[0] == '<'
    requires !StartsWith(s, "</") && !StartsWith(s, "<!--") && !StartsWith(s, "<?") && !StartsWith(s, "<![CDATA[")
    requires ParseElement(policy, s, ns) == Fail(error)
    ensures ParseContent(policy, s, node, "", ns) == Fail(error)
  {}

  lemma EndStep(policy: TextPolicy, s: string, node: XmlNode, ns: Namespaces)
    requires StartsWith(s, "</") && s[0] == '<'
    ensures ParseContent(policy, s, node, "", ns) == ParseEndTag(s[2..], node)
  {}

  lemma StartTagStep(policy: TextPolicy, s: string, ns: Namespaces, name: string, after: string,
                     attrs: seq<XmlAttribute>, inner: Namespaces, tail: string)
    requires s != "" && s[0] == '<' && !StartsWith(s[1..], "/")
    requires ParseRawName(s[1..]) == Ok(name, after)
    requires ParseAttributes(SkipSpace(after), [], ns) == Ok((attrs, inner), tail)
    ensures StartsWith(tail, "/>") ==>
              ParseElement(policy, s, ns) == Ok(StartOfNode(name, attrs, inner), tail[2..])
    ensures StartsWith(tail, ">") && !StartsWith(tail, "/>") ==>
              ParseElement(policy, s, ns) ==
              ParseContent(policy, tail[1..], StartOfNode(name, attrs, inner), "", inner)
  {}

  lemma FailedStartTagStep(policy: TextPolicy, s: string, ns: Namespaces, error: XmlError)
    requires s != "" && s[0] == '<' && !StartsWith(s[1..], "/")
    requires var name := ParseRawName(s[1..]);
             name == Fail(error) || (name.Ok? && ParseAttributes(SkipSpace(name.rest), [], ns) == Fail(error))
    ensures ParseElement(policy, s, ns) == Fail(error)
  {}

  lemma RunThenMarkup(policy: TextPolicy, run: string, n: nat, s: string, node: XmlNode, text': string, ns: Namespaces)
    requires run != "" && '<' !in run && s != "" && s[0] == '<' && FlushesTo(policy, node.text, run, text')
    ensures ParseContent(policy, run + (Spaces(n) + s), node, "", ns) ==
            ParseContent(policy, s, node.(text := text'), "", ns)
  {
    BlanksAreSpace(n);
    Regrouped(run, Spaces(n), s);
    TextRun(policy, run + Spaces(n), s, node, ns);
    FlushFirst(policy, s, node, run + Spaces(n), ns);
  }

  /** An element cannot be taken for an end tag, a comment, an instruction or a CDATA section. */
  lemma ElementIsNoOtherMarkup(s: string, name: string, rest: string)
    requires s == "<" + (name + rest) && NameChars(name) && rest != ""
    requires name == "" ==> rest[0] == ' ' || rest[0] == '>'
    ensures !StartsWith(s, "</") && !StartsWith(s, "<!--") && !StartsWith(s, "<?") && !StartsWith(s, "<![CDATA[")
    ensures !StartsWith(s[1..], "/")
  {
    assert s[1..] == name + rest;
    assert s[1] == if name == "" then rest[0] else name[0];
    NotPrefix(s, "</", 1);
    NotPrefix(s, "<!--", 1);
    NotPrefix(s, "<?", 1);
    NotPrefix(s, "<![CDATA[", 1);
    NotPrefix(s[1..], "/", 0);
  }

  lemma EndTagConcat(name: string, rest: string, node: XmlNode)
    requires NameChars(name) && name != "" && node.name == LocalName(name)
    ensures ParseEndTag((EndTag(name) + rest)[2..], node) == Ok(node, rest)
    ensures StartsWith(EndTag(name) + rest, "</")
  {
    assert EndTag(name) + rest == "</" + (name + (">" + rest));
    PrefixOfConcat("</", name + (">" + rest));
    RawNameConcat(name, ">" + rest);
    PrefixOfConcat(">", rest);
  }

  /** What the parser makes of the children and the end tag of an element. */
  function AfterChildren(policy: TextPolicy, nodes: seq<XmlNode>, node: XmlNode, ns: Namespaces,
                         rest: string): Parsed<XmlNode> {
    if ListNamed(nodes) then
      Ok(node.(text := AfterBreaks(policy, node.text, |nodes|),
               children := node.children + ReparsedList(policy, nodes, ns)), rest)
    else Fail(BadNameStart)
  }

  lemma EndOfSiblings(policy: TextPolicy, run: string, indent: nat, node: XmlNode, text': string, ns: Namespaces,
                      name: string, rest: string)
    requires run != "" && '<' !in run && FlushesTo(policy, node.text, run, text')
    requires NameChars(name) && name != "" && node.name == LocalName(name)
    ensures ParseContent(policy, run + (Spaces(indent) + (EndTag(name) + rest)), node, "", ns) ==
            Ok(node.(text := text'), rest)
  {
    var node1 := node.(text := text');
    EndTagConcat(name, rest, node1);
    RunThenMarkup(policy, run, indent, EndTag(name) + rest, node, text', ns);
    EndStep(policy, EndTag(name) + rest, node1, ns);
  }

  lemma {:induction false} SiblingsRoundTrip(
      policy: TextPolicy, run: string, nodes: seq<XmlNode>, indent: nat, node: XmlNode, text': string,
      ns: Namespaces, name: string, rest: string)
    requires !policy.Preserve? && ListNameChars(nodes)
    requires run != "" && '<' !in run && FlushesTo(policy, node.text, run, text')
    requires NameChars(name) && name != "" && node.name == LocalName(name)
    ensures ParseContent(policy, run + (LinesOf(nodes, indent + 2) + (Spaces(indent) + (EndTag(name) + rest))),
                         node, "", ns) ==
            AfterChildren(policy, nodes, node.(text := text'), ns, rest)
    decreases nodes, 1
  {
    var node1 := node.(text := text');
    var close := Spaces(indent) + (EndTag(name) + rest);
    if nodes == [] {
      assert LinesOf(nodes, indent + 2) + close == close;
      EndOfSiblings(policy, run, indent, node, text', ns, name, rest);
      assert node1.(children := node1.children + []) == node1;
    } else {
      var tail := LinesOf(nodes[1..], indent + 2) + close;
      ElementRoundTrip(policy, nodes[0], indent + 2, ns, "\n" + tail);
      LineBreakFlushes(policy, text');
      if AllNamed(nodes[0]) {
        SiblingsRoundTrip(policy, "\n", nodes[1..], indent, WithChild(policy, node1, nodes[0], ns),
                          AfterBreak(policy, text'), ns, name, rest);
      }
      SiblingsStep(policy, run, nodes, indent, node, text', ns, close, rest);
    }
  }

  function WithChild(policy: TextPolicy, node: XmlNode, child: XmlNode, ns: Namespaces): XmlNode {
    node.(children := node.children + [Reparsed(policy, child, ns)])
  }

  lemma SiblingsStep(policy: TextPolicy, run: string, nodes: seq<XmlNode>, indent: nat, node: XmlNode, text': string,
                     ns: Namespaces, close: string, rest: string)
    requires nodes != [] && AllNameChars(nodes[0])
    requires run != "" && '<' !in run && FlushesTo(policy, node.text, run, text')
    requires var tail := LinesOf(nodes[1..], indent + 2) + close;
             var node2 := WithChild(policy, node.(text := text'), nodes[0], ns);
             && ParseElement(policy, ElementText(nodes[0], indent + 2) + ("\n" + tail), ns) ==
                Outcome(policy, nodes[0], ns, "\n" + tail)
             && (AllNamed(nodes[0]) ==>
                   ParseContent(policy, "\n" + tail, node2, "", ns) ==
                   AfterChildren(policy, nodes[1..], node2.(text := AfterBreak(policy, text')), ns, rest))
    ensures ParseContent(policy, run + (LinesOf(nodes, indent + 2) + close), node, "", ns) ==
            AfterChildren(policy, nodes, node.(text := text'), ns, rest)
  {
    var tail := LinesOf(nodes[1..], indent + 2) + close;
    LinesByParts(nodes, indent + 2, close);
    FirstSibling(policy, run, nodes[0], indent + 2, node, text', ns, "\n" + tail);
    if AllNamed(nodes[0]) {
      OneMoreChild(policy, nodes, node.(text := text'), ns, rest);
    }
  }

  lemma OneMoreChild(policy: TextPolicy, nodes: seq<XmlNode>, node: XmlNode, ns: Namespaces, rest: string)
    requires nodes != [] && AllNamed(nodes[0])
    ensures var node1 := WithChild(policy, node, nodes[0], ns).(text := AfterBreak(policy, node.text));
            AfterChildren(policy, nodes[1..], node1, ns, rest) == AfterChildren(policy, nodes, node, ns, rest)
  {
    assert node.children + [Reparsed(policy, nodes[0], ns)] + ReparsedList(policy, nodes[1..], ns) ==
           node.children + ReparsedList(policy, nodes, ns);
  }

  lemma FirstSibling(policy: TextPolicy, run: string, n0: XmlNode, indent: nat, node: XmlNode, text': string,
                     ns: Namespaces, tail: string)
    requires AllNameChars(n0)
    requires run != "" && '<' !in run && FlushesTo(policy, node.text, run, text')
    requires ParseElement(policy, ElementText(n0, indent) + tail, ns) == Outcome(policy, n0, ns, tail)
    ensures var node1 := node.(text := text');
            ParseContent(policy, run + (Spaces(indent) + (ElementText(n0, indent) + tail)), node, "", ns) ==
            if AllNamed(n0) then ParseContent(policy, tail, WithChild(policy, node1, n0, ns), "", ns)
            else Fail(BadNameStart)
  {
    var s := ElementText(n0, indent) + tail;
    var node1 := node.(text := text');
    ElementTextByParts(n0, indent, tail);
    RunThenMarkup(policy, run, indent, s, node, text', ns);
    if AllNamed(n0) {
      ChildStep(policy, s, node1, ns, Reparsed(policy, n0, ns), tail);
    } else {
      FailedChildStep(policy, s, node1, ns, BadNameStart);
    }
  }

  lemma LinesByParts(nodes: seq<XmlNode>, indent: nat, close: string)
    requires nodes != []
    ensures LinesOf(nodes, indent) + close ==
            Spaces(indent) + (ElementText(nodes[0], indent) + ("\n" + (LinesOf(nodes[1..], indent) + close)))
  {
    var e := ElementText(nodes[0], indent);
    Regrouped(Spaces(indent) + (e + "\n"), LinesOf(nodes[1..], indent), close);
    Regrouped(Spaces(indent), e + "\n", LinesOf(nodes[1..], indent) + close);
    Regrouped(e, "\n", LinesOf(nodes[1..], indent) + close);
  }

  lemma ElementTextByParts(node: XmlNode, indent: nat, rest: string)
    requires AllNameChars(node)
    ensures var after := AttributesText(node.attributes) + (AfterAttributes(node, indent) + rest);
            && ElementText(node, indent) + rest == "<" + (node.name + after)
            && after != "" && (after[0] == ' ' || after[0] == '>')
            && EndsAttributes(AfterAttributes(node, indent) + rest)
    ensures var s := ElementText(node, indent) + rest;
            s != "" && s[0] == '<' &&
            !StartsWith(s, "</") && !StartsWith(s, "<!--") && !StartsWith(s, "<?") && !StartsWith(s, "<![CDATA[") &&
            !StartsWith(s[1..], "/")
  {
    var a, t := AttributesText(node.attributes), AfterAttributes(node, indent);
    var after := a + (t + rest);
    Regrouped("<", node.name + (a + t), rest);
    Regrouped(node.name, a + t, rest);
    Regrouped(a, t, rest);
    TailShape(node, indent, rest);
    if node.attributes == [] {
      assert after == t + rest;
    } else {
      assert a[0] == ' ';
    }
    ElementIsNoOtherMarkup(ElementText(node, indent) + rest, node.name, after);
  }

  lemma TailShape(node: XmlNode, indent: nat, rest: string)
    ensures var t := AfterAttributes(node, indent) + rest;
            EndsAttributes(t) && (t[0] == ' ' || t[0] == '>')
  {
    if node.children == [] && node.text == "" {
      PrefixOfConcat(" />", rest);
    } else {
      var inner := Escaped(InText, node.text) + (ChildrenText(node, indent) + EndTag(node.name));
      Regrouped(">", inner, rest);
      PrefixOfConcat(">", inner + rest);
    }
  }

  /** What the parser makes of a whole printed element. */
  function Outcome(policy: TextPolicy, node: XmlNode, ns: Namespaces, rest: string): Parsed<XmlNode> {
    if AllNamed(node) then Ok(Reparsed(policy, node, ns), rest) else Fail(BadNameStart)
  }

  /** What follows the start tag of an element with text or children. */
  function BodyText(node: XmlNode, indent: nat, rest: string): string {
    Escaped(InText, node.text) + (ChildrenText(node, indent) + (EndTag(node.name) + rest))
  }

  /** The start tag of a printed element, and what is left to parse after it. */
  lemma StartOfElement(policy: TextPolicy, node: XmlNode, indent: nat, ns: Namespaces, rest: string)
    requires AllNameChars(node)
    ensures var (attrs, inner) := ReparsedAttributes(node.attributes, [], ns);
            var start := StartOfNode(node.name, attrs, inner);
            ParseElement(policy, ElementText(node, indent) + rest, ns) ==
            if node.name == "" || !AttributesNamed(node.attributes) then Fail(BadNameStart)
            else if node.children == [] && node.text == "" then Ok(start, rest)
            else ParseContent(policy, BodyText(node, indent, rest), start, "", inner)
  {
    hide ParseContent;
    var s := ElementText(node, indent) + rest;
    var tail := AfterAttributes(node, indent) + rest;
    var after := AttributesText(node.attributes) + tail;
    ElementTextByParts(node, indent, rest);
    assert s[1..] == node.name + after;
    RawNameConcat(node.name, after);
    AttributesAfterSpace(node.attributes, tail, ns);
    if node.name != "" && AttributesNamed(node.attributes) {
      var (attrs, inner) := ReparsedAttributes(node.attributes, [], ns);
      StartTagStep(policy, s, ns, node.name, after, attrs, inner, SkipSpace(tail));
      if node.children == [] && node.text == "" {
        LeafTail(node, indent, rest);
      } else {
        BodyTail(node, indent, rest);
      }
    } else {
      FailedStartTagStep(policy, s, ns, BadNameStart);
    }
  }

  lemma {:induction false} ElementRoundTrip(policy: TextPolicy, node: XmlNode, indent: nat, ns: Namespaces,
                                            rest: string)
    requires AllNameChars(node) && (policy.Preserve? ==> node.children == [])
    ensures ParseElement(policy, ElementText(node, indent) + rest, ns) == Outcome(policy, node, ns, rest)
    decreases node, 0
  {
    hide ParseElement, ParseContent, ElementText, BodyText, AfterChildren, Reparsed;
    StartOfElement(policy, node, indent, ns, rest);
    if node.name != "" && AttributesNamed(node.attributes) {
      var (attrs, inner) := ReparsedAttributes(node.attributes, [], ns);
      ReparsedByParts(policy, node, ns, rest);
      if node.children != [] || node.text != "" {
        BodyRoundTrip(policy, node, indent, StartOfNode(node.name, attrs, inner), inner, rest);
      }
    }
  }

  lemma ReparsedByParts(policy: TextPolicy, node: XmlNode, ns: Namespaces, rest: string)
    requires node.name != "" && AttributesNamed(node.attributes)
    ensures var (attrs, inner) := ReparsedAttributes(node.attributes, [], ns);
            var start := StartOfNode(node.name, attrs, inner);
            && Outcome(policy, node, ns, rest) ==
               AfterChildren(policy, node.children, start.(text := FirstFlush(policy, node.text, node.children == [])),
                             inner, rest)
            && (node.children == [] && node.text == "" ==> Outcome(policy, node, ns, rest) == Ok(start, rest))
  {
    hide FirstFlush;
    var (attrs, inner) := ReparsedAttributes(node.attributes, [], ns);
    NothingFlushed(policy);
    assert [] + ReparsedList(policy, node.children, inner) == ReparsedList(policy, node.children, inner);
  }

  lemma NothingFlushed(policy: TextPolicy)
    ensures FirstFlush(policy, "", true) == ""
  {}

  lemma AttributesAfterSpace(attrs: seq<XmlAttribute>, tail: string, ns: Namespaces)
    requires AttributeNameChars(attrs) && EndsAttributes(tail)
    ensures ParseAttributes(SkipSpace(AttributesText(attrs) + tail), [], ns) ==
            if AttributesNamed(attrs) then Ok(ReparsedAttributes(attrs, [], ns), SkipSpace(tail))
            else Fail(BadNameStart)
  {
    AttributesConcat(attrs, tail, [], ns);
    SkipSpaceIdempotent(AttributesText(attrs) + tail);
  }

  lemma LeafTail(node: XmlNode, indent: nat, rest: string)
    requires node.children == [] && node.text == ""
    ensures var t := SkipSpace(AfterAttributes(node, indent) + rest); StartsWith(t, "/>") && t[2..] == rest
  {
    var tail := AfterAttributes(node, indent) + rest;
    PrefixOfConcat(" />", rest);
    BlankBeforeSlash(tail);
    assert " />" == " " + "/>";
    assert tail[1..] == "/>" + rest;
    PrefixOfConcat("/>", rest);
  }

  lemma BodyTail(node: XmlNode, indent: nat, rest: string)
    requires node.children != [] || node.text != ""
    ensures var tail := AfterAttributes(node, indent) + rest;
            SkipSpace(tail) == tail && StartsWith(tail, ">") && !StartsWith(tail, "/>") &&
            tail[1..] == BodyText(node, indent, rest)
  {
    var e, c, t := Escaped(InText, node.text), ChildrenText(node, indent), EndTag(node.name);
    var tail := AfterAttributes(node, indent) + rest;
    Regrouped(">", e + (c + t), rest);
    Regrouped(e, c + t, rest);
    Regrouped(c, t, rest);
    PrefixOfConcat(">", e + (c + (t + rest)));
    NotPrefix(tail, "/>", 0);
    BlankBeforeSlash(tail);
  }

  lemma {:induction false} BodyRoundTrip(
      policy: TextPolicy, node: XmlNode, indent: nat, start: XmlNode, inner: Namespaces, rest: string)
    requires AllNameChars(node) && node.name != "" && (node.children != [] || node.text != "")
    requires policy.Preserve? ==> node.children == []
    requires start.name == LocalName(node.name) && start.text == "" && start.children == []
    ensures ParseContent(policy, BodyText(node, indent, rest), start, "", inner) ==
            AfterChildren(policy, node.children, start.(text := FirstFlush(policy, node.text, node.children == [])),
                          inner, rest)
    decreases node.children, 2
  {
    hide ParseContent, ParseEndTag, Escaped, EndTag, FlushesTo, FirstFlush, StartsWith, LocalName;
    if node.children == [] {
      LeafRoundTrip(policy, node, indent, start, inner, rest);
    } else {
      EscapedHasNoMarkup(InText, node.text);
      TextFlushes(policy, node.text);
      var e, t := Escaped(InText, node.text), EndTag(node.name);
      BodyByParts(node, indent, rest);
      SiblingsRoundTrip(policy, e + "\n", node.children, indent, start, FirstFlush(policy, node.text, false), inner,
                        node.name, rest);
    }
  }

  lemma BodyByParts(node: XmlNode, indent: nat, rest: string)
    requires node.children != []
    ensures BodyText(node, indent, rest) ==
            (Escaped(InText, node.text) + "\n")
            + (LinesOf(node.children, indent + 2) + (Spaces(indent) + (EndTag(node.name) + rest)))
  {
    hide Escaped, LinesOf, EndTag, Spaces;
    var e, lines, close := Escaped(InText, node.text), LinesOf(node.children, indent + 2), EndTag(node.name) + rest;
    Regrouped("\n", lines + Spaces(indent), close);
    Regrouped(lines, Spaces(indent), close);
    Regrouped(e, "\n", lines + (Spaces(indent) + close));
  }

  lemma LeafRoundTrip(policy: TextPolicy, node: XmlNode, indent: nat, start: XmlNode, inner: Namespaces, rest: string)
    requires NameChars(node.name) && node.name != "" && node.children == [] && node.text != ""
    requires start.name == LocalName(node.name) && start.text == "" && start.children == []
    ensures ParseContent(policy, BodyText(node, indent, rest), start, "", inner) ==
            AfterChildren(policy, [], start.(text := FirstFlush(policy, node.text, true)), inner, rest)
  {
    hide ParseContent, ParseEndTag, Escaped, EndTag, FirstFlush, Flushed, StartsWith, LocalName;
    var e, s := Escaped(InText, node.text), EndTag(node.name) + rest;
    var filled := start.(text := FirstFlush(policy, node.text, true));
    EscapedHasNoMarkup(InText, node.text);
    assert ChildrenText(node, indent) + s == s;
    EndTagConcat(node.name, rest, filled);
    EndTagStart(node.name, rest);
    TextRun(policy, e, s, start, inner);
    FlushFirst(policy, s, start, e, inner);
    LeafTextFlushes(policy, node.text);
    EndStep(policy, s, filled, inner);
    assert filled.(children := filled.children + []) == filled;
  }

  lemma EndTagStart(name: string, rest: string)
    ensures var s := EndTag(name) + rest; s != "" && s[0] == '<'
  {}

  // Documents

  lemma {:induction false} SkipPastConcat(body: string, close: string, rest: string, error: XmlError)
    requires |close| == 2 && close[0] !in body
    ensures SkipPast(body + (close + rest), close, error) == Ok(body, rest)
  {
    var s := body + (close + rest);
    if body == "" {
      assert s == close + rest;
      PrefixOfConcat(close, rest);
    } else {
      assert s[1..] == body[1..] + (close + rest);
      SkipPastConcat(body[1..], close, rest, error);
      NotPrefix(s, close, 0);
      assert [s[0]] + body[1..] == body;
    }
  }

  lemma MiscBeforeElement(blank: string, s: string)
    requires AllSpace(blank) && s != "" && s[0] == '<' && !StartsWith(s, "<?") && !StartsWith(s, "<!--")
    ensures SkipMisc(blank + s) == Ok((), s)
  {
    SkipSpaceOverSpace(blank, s);
  }

  lemma MiscAfterDeclaration(s: string)
    requires s != "" && s[0] == '<' && !StartsWith(s, "<?") && !StartsWith(s, "<!--")
    ensures SkipMisc(Declaration() + s) == Ok((), s)
  {
    var body := DeclarationBody();
    var tail := "\n" + s;
    assert "?>\n" == "?>" + "\n";
    DeclarationByParts(body, s);
    PrefixOfConcat("<?", body + ("?>" + tail));
    DeclarationBodyHasNoQuestionMark();
    SkipPastConcat(body, "?>", tail, UnclosedInstruction);
    MiscAfterInstruction(Declaration() + s, tail, s);
  }

  lemma DeclarationByParts(body: string, s: string)
    ensures "<?" + (body + "?>\n") + s == "<?" + (body + ("?>" + ("\n" + s)))
  {
    assert "?>\n" == "?>" + "\n";
  }

  lemma DeclarationBodyHasNoQuestionMark()
    ensures '?' !in DeclarationBody()
  {}

  lemma MiscAfterInstruction(s: string, tail: string, rest: string)
    requires StartsWith(s, "<?") && SkipPast(s[2..], "?>", UnclosedInstruction).Ok?
    requires SkipPast(s[2..], "?>", UnclosedInstruction).rest == tail && tail == "\n" + rest
    requires rest != "" && rest[0] == '<' && !StartsWith(rest, "<?") && !StartsWith(rest, "<!--")
    ensures SkipMisc(s) == Ok((), rest)
  {
    assert s[0] == s[..2][0];
    MiscBeforeElement("\n", rest);
  }

  /** Whatever is in front of it, the printed root element is parsed. */
  lemma ParsePrinted(policy: TextPolicy, node: XmlNode, includeDeclaration: bool)
    requires AllNameChars(node)
    ensures Parse(policy, Serialized(node, includeDeclaration)) ==
            ParseElement(policy, ElementText(node, 0) + "\n", map[])
  {
    hide ParseElement, SkipMisc, ElementText, Declaration, AllNameChars;
    var s := ElementText(node, 0) + "\n";
    assert Spaces(0) == "";
    assert LineOf(node, 0) == s;
    ElementTextByParts(node, 0, "\n");
    assert StartsWith(s, "<") by { assert s[..1] == "<"; }
    if includeDeclaration {
      MiscAfterDeclaration(s);
    } else {
      MiscBeforeElement("", s);
      assert "" + s == s;
    }
  }

  /** Parsing a printed document, with or without the declaration, for every tree whose names are made of name
      characters, and under `Preserve` for every such leaf. */
  lemma ParseSerialized(policy: TextPolicy, node: XmlNode, includeDeclaration: bool)
    requires AllNameChars(node) && (policy.Preserve? ==> node.children == [])
    ensures Parse(policy, Serialized(node, includeDeclaration)) == Outcome(policy, node, map[], "\n")
  {
    hide Parse, ParseElement, Serialized, ElementText, AllNameChars, Outcome;
    ParsePrinted(policy, node, includeDeclaration);
    ElementRoundTrip(policy, node, 0, map[], "\n");
  }

  // Line breaks stay under `Preserve`

  lemma FlushedGrows(policy: TextPolicy, text: string, raw: string)
    ensures |Flushed(policy, text, raw)| >= |text|
  {
    hide Decoded, Trimmed, AllSpace;
  }

  lemma EndTagKeepsNode(s: string, node: XmlNode)
    ensures var r := ParseEndTag(s, node); r.Ok? ==> r.value == node
  {
    hide ParseRawName, LocalName, SkipSpace, StartsWith;
  }

  lemma TextIsShortened(s: string)
    requires s != "" && s[0] != '<'
    ensures 0 < IndexOf(s, '<') <= |s|
  {}

  /** Parsing on only ever adds to the text of a node. */
  lemma {:induction false} ContentKeepsText(policy: TextPolicy, s: string, node: XmlNode, raw: string, ns: Namespaces)
    ensures var r := ParseContent(policy, s, node, raw, ns); r.Ok? ==> |r.value.text| >= |node.text|
    decreases |s|
  {
    hide Flushed, ParseElement, ParseEndTag, SkipPast, IndexOf, StartsWith;
    FlushedGrows(policy, node.text, raw);
    if s == "" {
    } else if s[0] != '<' {
      TextIsShortened(s);
      var n := IndexOf(s, '<');
      ContentKeepsText(policy, s[n..], node, raw + s[..n], ns);
    } else {
      MarkupKeepsText(policy, s, node, raw, ns);
    }
  }

  lemma {:induction false} MarkupKeepsText(policy: TextPolicy, s: string, node: XmlNode, raw: string, ns: Namespaces)
    requires s != "" && s[0] == '<'
    ensures var r := ParseContent(policy, s, node, raw, ns); r.Ok? ==> |r.value.text| >= |node.text|
    decreases |s|, 0
  {
    hide Flushed, ParseElement, ParseEndTag, SkipPast, IndexOf;
    FlushedGrows(policy, node.text, raw);
    var node1 := node.(text := Flushed(policy, node.text, raw));
    if StartsWith(s, "</") {
      EndTagKeepsNode(s[2..], node1);
    } else if StartsWith(s, "<!--") {
      var r := SkipPast(s[4..], "-->", UnclosedComment);
      if r.Ok? { ContentKeepsText(policy, r.rest, node1, "", ns); }
    } else if StartsWith(s, "<?") {
      var r := SkipPast(s[2..], "?>", UnclosedInstruction);
      if r.Ok? { ContentKeepsText(policy, r.rest, node1, "", ns); }
    } else if StartsWith(s, "<![CDATA[") {
      var r := SkipPast(s[9..], "]]>", UnclosedCData);
      if r.Ok? {
        var node2 := node1.(text := (if node1.text != "" then node1.text + " " else "") + r.value);
        ContentKeepsText(policy, r.rest, node2, "", ns);
      }
    } else {
      var child := ParseElement(policy, s, ns);
      if child.Ok? {
        ContentKeepsText(policy, child.rest, node1.(children := node1.children + [child.value]), "", ns);
      }
    }
  }

  lemma DecodedIsLonger(text: string, w: string)
    requires w != ""
    ensures |Decoded(Escaped(InText, text) + w)| > |text|
  {
    hide Escaped;
    DecodeEscaped(InText, text, w);
  }

  /** The text of an element with children is followed by a line break. */
  lemma PreservedTextGrows(node: XmlNode, indent: nat, start: XmlNode, ns: Namespaces, rest: string)
    requires AllNameChars(node) && node.children != [] && start.text == ""
    ensures var r := ParseContent(Preserve, BodyText(node, indent, rest), start, "", ns);
            r.Ok? ==> |r.value.text| > |node.text|
  {
    hide ParseContent, Escaped, Decoded, ElementText, LinesOf, EndTag, Spaces;
    var e, n := Escaped(InText, node.text), indent + 2;
    var close := Spaces(indent) + (EndTag(node.name) + rest);
    var s := ElementText(node.children[0], n) + ("\n" + (LinesOf(node.children[1..], n) + close));
    var w := "\n" + Spaces(n);
    BodyByParts(node, indent, rest);
    LinesByParts(node.children, n, close);
    ElementTextByParts(node.children[0], n, "\n" + (LinesOf(node.children[1..], n) + close));
    Regrouped(e + "\n", Spaces(n), s);
    Regrouped(e, "\n", Spaces(n));
    assert BodyText(node, indent, rest) == (e + w) + s;
    EscapedHasNoMarkup(InText, node.text);
    BlanksAreSpace(n);
    TextRun(Preserve, e + w, s, start, ns);
    FlushFirst(Preserve, s, start, e + w, ns);
    DecodedIsLonger(node.text, w);
    var text := Flushed(Preserve, "", e + w);
    assert text == Decoded(e + w);
    ContentKeepsText(Preserve, s, start.(text := text), "", ns);
  }

  lemma PreservedChildrenChangeTheText(node: XmlNode, includeDeclaration: bool)
    requires AllNameChars(node) && node.children != []
    ensures var r := Parse(Preserve, Serialized(node, includeDeclaration)); r.Ok? ==> r.value != node
  {
    hide Parse, ParseElement, ParseContent, Serialized, ElementText, BodyText, AllNameChars;
    ParsePrinted(Preserve, node, includeDeclaration);
    StartOfElement(Preserve, node, 0, map[], "\n");
    var (attrs, inner) := ReparsedAttributes(node.attributes, [], map[]);
    PreservedTextGrows(node, 0, StartOfNode(node.name, attrs, inner), inner, "\n");
  }

  // Exactly which trees come back unchanged

  predicate PlainAttribute(a: XmlAttribute) {
    ':' !in a.name && a.name != "xmlns" && a.prefix == "" && a.nsUri == ""
  }

  /** No prefixes, URIs or colons, no attribute called xmlns, and no text that the policy changes. */
  predicate Plain(policy: TextPolicy, node: XmlNode)
    decreases node, 0
  {
    && ':' !in node.name && node.prefix == "" && node.nsUri == "" && TextStays(policy, node.text, |node.children|)
    && (forall i :: 0 <= i < |node.attributes| ==> PlainAttribute(node.attributes[i]))
    && ListPlain(policy, node.children)
  }

  predicate ListPlain(policy: TextPolicy, nodes: seq<XmlNode>)
    decreases nodes, 1
  {
    nodes == [] || (Plain(policy, nodes[0]) && ListPlain(policy, nodes[1..]))
  }

  lemma LocalNameIsWholeName(raw: string)
    ensures LocalName(raw) == raw <==> ':' !in raw
    ensures ':' !in raw ==> PrefixOf(raw) == ""
  {
    IndexOfIsFirst(raw, ':');
  }

  lemma AttributeComesBack(a: XmlAttribute)
    ensures !DeclaresNamespace(a.name) && ParsedAttribute(map[], a.name, a.value) == a <==> PlainAttribute(a)
  {
    LocalNameIsWholeName(a.name);
    if ':' !in a.name && |a.name| > 5 { NotPrefix(a.name, "xmlns:", 5); }
  }

  lemma {:induction false} ReparsedAttributesLength(attrs: seq<XmlAttribute>, before: seq<XmlAttribute>, ns: Namespaces)
    ensures |ReparsedAttributes(attrs, before, ns).0| <= |before| + |attrs|
    ensures |ReparsedAttributes(attrs, before, ns).0| >= |before|
            && ReparsedAttributes(attrs, before, ns).0[..|before|] == before
  {
    if attrs != [] {
      var a := attrs[0];
      ReparsedAttributesLength(attrs[1..], AttributesAfter(before, ns, a.name, a.value),
                               NamespacesAfter(ns, a.name, a.value));
    }
  }

  lemma {:induction false} AttributesComeBack(attrs: seq<XmlAttribute>, before: seq<XmlAttribute>)
    ensures ReparsedAttributes(attrs, before, map[]).0 == before + attrs <==>
            forall i :: 0 <= i < |attrs| ==> PlainAttribute(attrs[i])
    ensures (forall i :: 0 <= i < |attrs| ==> PlainAttribute(attrs[i])) ==>
            ReparsedAttributes(attrs, before, map[]).1 == map[]
  {
    if attrs != [] {
      var a, rest := attrs[0], attrs[1..];
      assert attrs == [a] + rest;
      AttributeComesBack(a);
      ReparsedAttributesLength(rest, AttributesAfter(before, map[], a.name, a.value),
                               NamespacesAfter(map[], a.name, a.value));
      if DeclaresNamespace(a.name) {
        assert |before + attrs| == |before| + |attrs|;
        assert !PlainAttribute(attrs[0]);
      } else {
        var p := ParsedAttribute(map[], a.name, a.value);
        AttributesComeBack(rest, before + [p]);
        assert before + [a] + rest == before + attrs;
        assert (before + attrs)[|before|] == a;
        assert (forall i :: 0 <= i < |attrs| ==> PlainAttribute(attrs[i])) <==>
               PlainAttribute(a) && forall i :: 0 <= i < |rest| ==> PlainAttribute(rest[i]);
      }
    }
  }

  lemma {:induction false} ReparsedIsUnchanged(policy: TextPolicy, node: XmlNode)
    requires policy.Preserve? ==> node.children == []
    ensures Reparsed(policy, node, map[]) == node <==> Plain(policy, node)
    decreases node, 0
  {
    hide StoredText, TextStays;
    var (attrs, inner) := ReparsedAttributes(node.attributes, [], map[]);
    AttributesComeBack(node.attributes, []);
    assert [] + node.attributes == node.attributes;
    LocalNameIsWholeName(node.name);
    StoredTextStays(policy, node.text, |node.children|);
    if inner == map[] && node.children != [] {
      ReparsedListIsUnchanged(policy, node.children);
    }
  }

  lemma {:induction false} ReparsedListIsUnchanged(policy: TextPolicy, nodes: seq<XmlNode>)
    requires !policy.Preserve?
    ensures ReparsedList(policy, nodes, map[]) == nodes <==> ListPlain(policy, nodes)
    decreases nodes, 1
  {
    if nodes != [] {
      ReparsedIsUnchanged(policy, nodes[0]);
      ReparsedListIsUnchanged(policy, nodes[1..]);
      assert nodes == [nodes[0]] + nodes[1..];
    }
  }

  // Nothing the parser returns has other characters in a name

  lemma {:induction false} NameLengthChars(s: string)
    ensures NameChars(s[..NameLength(s)])
  {
    if s != "" && IsNameChar(s[0]) {
      NameLengthChars(s[1..]);
      var n := NameLength(s);
      assert s[..n] == [s[0]] + s[1..][..n - 1];
    }
  }

  lemma {:induction false} ParsedAttributesNameChars(s: string, attrs: seq<XmlAttribute>, ns: Namespaces)
    requires AttributeNameChars(attrs)
    ensures var r := ParseAttributes(s, attrs, ns); r.Ok? ==> AttributeNameChars(r.value.0)
    decreases |s|
  {
    var s1 := SkipSpace(s);
    if s1 != "" && s1[0] != '/' && s1[0] != '>' && ParseAttribute(s1).Ok? {
      var a := ParseAttribute(s1);
      NameLengthChars(s1);
      assert NameChars(a.value.0);
      ParsedAttributesNameChars(a.rest, AttributesAfter(attrs, ns, a.value.0, a.value.1),
                                NamespacesAfter(ns, a.value.0, a.value.1));
    }
  }

  lemma {:induction false} ListNameCharsConcat(nodes: seq<XmlNode>, node: XmlNode)
    requires ListNameChars(nodes) && AllNameChars(node)
    ensures ListNameChars(nodes + [node])
  {
    if nodes != [] {
      ListNameCharsConcat(nodes[1..], node);
      assert (nodes + [node])[1..] == nodes[1..] + [node];
    }
  }

  lemma {:induction false} ParsedElementNameChars(policy: TextPolicy, s: string, ns: Namespaces)
    ensures var r := ParseElement(policy, s, ns); r.Ok? ==> AllNameChars(r.value)
    decreases |s|, 0
  {
    if s != "" && s[0] == '<' && !StartsWith(s[1..], "/") && ParseRawName(s[1..]).Ok? {
      var name := ParseRawName(s[1..]);
      NameLengthChars(s[1..]);
      var attrs := ParseAttributes(SkipSpace(name.rest), [], ns);
      ParsedAttributesNameChars(SkipSpace(name.rest), [], ns);
      if attrs.Ok? && !StartsWith(attrs.rest, "/>") && StartsWith(attrs.rest, ">") {
        ParsedContentNameChars(policy, attrs.rest[1..], StartOfNode(name.value, attrs.value.0, attrs.value.1), "",
                               attrs.value.1);
      }
    }
  }

  lemma {:induction false} ParsedContentNameChars(policy: TextPolicy, s: string, node: XmlNode, raw: string,
                                                  ns: Namespaces)
    requires AllNameChars(node)
    ensures var r := ParseContent(policy, s, node, raw, ns); r.Ok? ==> AllNameChars(r.value)
    decreases |s|, 1
  {
    if s == "" {
    } else if s[0] != '<' {
      var n := IndexOf(s, '<');
      ParsedContentNameChars(policy, s[n..], node, raw + s[..n], ns);
    } else {
      var node1 := node.(text := Flushed(policy, node.text, raw));
      if StartsWith(s, "</") {
      } else if StartsWith(s, "<!--") {
        var r := SkipPast(s[4..], "-->", UnclosedComment);
        if r.Ok? { ParsedContentNameChars(policy, r.rest, node1, "", ns); }
      } else if StartsWith(s, "<?") {
        var r := SkipPast(s[2..], "?>", UnclosedInstruction);
        if r.Ok? { ParsedContentNameChars(policy, r.rest, node1, "", ns); }
      } else if StartsWith(s, "<![CDATA[") {
        var r := SkipPast(s[9..], "]]>", UnclosedCData);
        if r.Ok? {
          var node2 := node1.(text := (if node1.text != "" then node1.text + " " else "") + r.value);
          ParsedContentNameChars(policy, r.rest, node2, "", ns);
        }
      } else {
        var child := ParseElement(policy, s, ns);
        ParsedElementNameChars(policy, s, ns);
        if child.Ok? {
          ListNameCharsConcat(node1.children, child.value);
          ParsedContentNameChars(policy, child.rest, node1.(children := node1.children + [child.value]), "", ns);
        }
      }
    }
  }

  /** For every tree and every policy: printing and parsing gives the same tree back exactly when its names are
      non-empty and made of name characters and it is plain. */
  lemma RoundTripExactlyForPlainTrees(policy: TextPolicy, node: XmlNode, includeDeclaration: bool)
    ensures var r := Parse(policy, Serialized(node, includeDeclaration));
            (r.Ok? && r.value == node) <==> AllNameChars(node) && AllNamed(node) && Plain(policy, node)
  {
    hide AllNameChars, Serialized, ParseElement, SkipMisc, Reparsed;
    var s := Serialized(node, includeDeclaration);
    if AllNameChars(node) {
      if policy.Preserve? && node.children != [] {
        PreservedChildrenChangeTheText(node, includeDeclaration);
      } else {
        ParseSerialized(policy, node, includeDeclaration);
        ReparsedIsUnchanged(policy, node);
      }
    } else {
      var misc := SkipMisc(s);
      if misc.Ok? { ParsedElementNameChars(policy, misc.rest, map[]); }
    }
  }
}
