/** The parser itself: a cursor that moves over the text. */
module XmlParser {
  import opened CStrings
  import opened Common
  import opened XmlText
  import opened XmlSerializer
  import opened XmlGrammar

  datatype Result<+T> = Success(value: T) | Failure(error: XmlError) {
    predicate IsFailure() { Failure? }
    function PropagateFailure<U>(): Result<U> requires Failure? { Failure(error) }
    function Extract(): T requires Success? { value }
  }

  /** The method result `r`, with `rest` left to read, is what the grammar says. */
  predicate Agrees<T(==)>(r: Result<T>, rest: string, spec: Parsed<T>) {
    match spec
    case Ok(value, left) => r == Success(value) && rest == left
    case Fail(error) => r == Failure(error)
  }

  /** The grammar of content at a markup character, once the text before it is stored. */
  function Markup(policy: TextPolicy, s: string, node: XmlNode, ns: Namespaces): Parsed<XmlNode> {
    if StartsWith(s, "</") then ParseEndTag(s[2..], node)
    else if StartsWith(s, "<!--") then AfterSection(policy, SkipPast(s[4..], "-->", UnclosedComment), node, ns)
    else if StartsWith(s, "<?") then AfterSection(policy, SkipPast(s[2..], "?>", UnclosedInstruction), node, ns)
    else if StartsWith(s, "<![CDATA[") then AfterCData(policy, SkipPast(s[9..], "]]>", UnclosedCData), node, ns)
    else AfterChild(policy, ParseElement(policy, s, ns), node, ns)
  }

  lemma MarkupStep(policy: TextPolicy, s: string, node: XmlNode, raw: string, ns: Namespaces)
    requires s != "" && s[0] == '<'
    ensures ParseContent(policy, s, node, raw, ns)
         == Markup(policy, s, node.(text := Flushed(policy, node.text, raw)), ns)
  {
    hide ParseElement, ParseEndTag, SkipPast, Flushed;
  }

  lemma EndTagStep(policy: TextPolicy, s: string, node: XmlNode, ns: Namespaces)
    requires StartsWith(s, "</")
    ensures Markup(policy, s, node, ns) == ParseEndTag(s[2..], node)
  {}

  function AfterSection(policy: TextPolicy, r: Parsed<string>, node: XmlNode, ns: Namespaces): Parsed<XmlNode> {
    if r.Fail? then Fail(r.error) else ParseContent(policy, r.rest, node, "", ns)
  }

  function AfterCData(policy: TextPolicy, r: Parsed<string>, node: XmlNode, ns: Namespaces): Parsed<XmlNode> {
    if r.Fail? then Fail(r.error)
    else
      var text := (if node.text != "" then node.text + " " else "") + r.value;
      ParseContent(policy, r.rest, node.(text := text), "", ns)
  }

  function AfterChild(policy: TextPolicy, r: Parsed<XmlNode>, node: XmlNode, ns: Namespaces): Parsed<XmlNode> {
    if r.Fail? then r else ParseContent(policy, r.rest, node.(children := node.children + [r.value]), "", ns)
  }

  lemma TextStep(policy: TextPolicy, s: string, node: XmlNode, raw: string, ns: Namespaces)
    requires s != "" && s[0] != '<'
    ensures var n := IndexOf(s, '<');
            0 < n && ParseContent(policy, s, node, raw, ns) == ParseContent(policy, s[n..], node, raw + s[..n], ns)
  {
    hide ParseElement, ParseEndTag, SkipPast, Flushed;
  }

  lemma ContentEnds(policy: TextPolicy, node: XmlNode, raw: string, ns: Namespaces)
    ensures ParseContent(policy, "", node, raw, ns) == Ok(node.(text := Flushed(policy, node.text, raw)), "")
  {
    hide ParseElement, ParseEndTag, SkipPast, Flushed;
  }

  class XmlParser {
    var xml: string
    var pos: nat
    var policy: TextPolicy

    constructor (xml: string, policy: TextPolicy)
      ensures this.xml == xml && this.policy == policy && pos == 0
    {
      this.xml, this.policy, pos := xml, policy, 0;
    }

    function Rest(): string
      requires pos <= |xml|
      reads this
    {
      xml[pos..]
    }

    predicate PeekChar(c: char)
      requires pos <= |xml|
      reads this
      ensures PeekChar(c) <==> Rest() != "" && Rest()[0] == c
      ensures PeekChar(c) <==> StartsWith(Rest(), [c])
    {
      assert pos < |xml| ==> Rest()[..1] == [xml[pos]];
      pos < |xml| && xml[pos] == c
    }

    predicate LooksAt(p: string)
      requires pos <= |xml|
      reads this
      ensures LooksAt(p) <==> StartsWith(Rest(), p)
    {
      assert pos + |p| <= |xml| ==> xml[pos..pos + |p|] == xml[pos..][..|p|];
      pos + |p| <= |xml| && xml[pos..pos + |p|] == p
    }

    method Advance(n: nat)
      requires pos + n <= |xml|
      modifies this`pos
      ensures pos == old(pos) + n && Rest() == old(Rest())[n..]
    {
      pos := pos + n;
      assert xml[pos..] == xml[old(pos)..][n..];
    }

    method SkipWhitespace()
      requires pos <= |xml|
      modifies this`pos
      ensures pos <= |xml| && Rest() == SkipSpace(old(Rest()))
    {
      while pos < |xml| && IsSpace(xml[pos])
        invariant pos <= |xml| && SkipSpace(Rest()) == SkipSpace(old(Rest()))
      {
        Advance(1);
      }
    }

    method ReadRawName() returns (r: Result<string>)
      requires pos <= |xml|
      modifies this`pos
      ensures pos <= |xml| && Agrees(r, Rest(), ParseRawName(old(Rest())))
    {
      if pos >= |xml| { return Failure(NameAtEnd); }
      if !IsNameChar(xml[pos]) { return Failure(BadNameStart); }
      var start := pos;
      ghost var n := NameLength(Rest());
      Advance(1);
      while pos < |xml| && IsNameChar(xml[pos])
        invariant start < pos <= |xml| && pos - start + NameLength(Rest()) == n
      {
        Advance(1);
      }
      assert xml[start..pos] == old(Rest())[..n];
      assert Rest() == old(Rest())[n..];
      return Success(xml[start..pos]);
    }

    /** Moves to the next `c`, or to the end, and returns what was passed over. */
    method ReadUntil(c: char) returns (s: string)
      requires pos <= |xml|
      modifies this`pos
      ensures pos <= |xml|
      ensures var n := IndexOf(old(Rest()), c);
              s == old(Rest())[..n] && Rest() == old(Rest())[n..] && pos == old(pos) + n
    {
      var start := pos;
      ghost var n := IndexOf(Rest(), c);
      while pos < |xml| && xml[pos] != c
        invariant start <= pos <= |xml| && pos - start + IndexOf(Rest(), c) == n
      {
        Advance(1);
      }
      assert xml[start..pos] == old(Rest())[..n];
      assert Rest() == old(Rest())[n..];
      return xml[start..pos];
    }

    method ReadAttributeValue() returns (r: Result<string>)
      requires pos <= |xml|
      modifies this`pos
      ensures pos <= |xml| && Agrees(r, Rest(), ParseAttributeValue(old(Rest())))
    {
      SkipWhitespace();
      if pos >= |xml| { return Failure(ValueAtEnd); }
      var quote := xml[pos];
      if quote != '"' && quote != '\'' { return Failure(UnquotedValue); }
      Advance(1);
      ghost var body := Rest();
      var raw := ReadUntil(quote);
      if pos >= |xml| { return Failure(UnclosedValue); }
      Advance(1);
      assert Rest() == body[IndexOf(body, quote) + 1..];
      var value := DecodeEntities(raw);
      return Success(value);
    }

    /** Skips to just behind `close`, which opens a section of the kind that was just entered. */
    method SkipSection(close: string, error: XmlError) returns (r: Result<string>)
      requires pos <= |xml| && close != ""
      modifies this`pos
      ensures pos <= |xml| && Agrees(r, Rest(), SkipPast(old(Rest()), close, error))
      ensures r.Success? ==> pos >= old(pos)
    {
      hide SkipPast, Prepended, StartsWith;
      var start := pos;
      NothingPrepended(SkipPast(Rest(), close, error));
      assert xml[start..pos] == "";
      while pos + |close| <= |xml| && !LooksAt(close)
        invariant start <= pos <= |xml|
        invariant Prepended(xml[start..pos], SkipPast(Rest(), close, error)) == SkipPast(old(Rest()), close, error)
      {
        SectionStep(xml[start..pos], Rest(), close, error);
        SliceGrows(xml, start, pos);
        Advance(1);
      }
      SectionEnds(xml[start..pos], Rest(), close, error);
      if pos + |close| > |xml| { return Failure(error); }
      var skipped := xml[start..pos];
      Advance(|close|);
      return Success(skipped);
    }

    method ReadAttributes(ns0: Namespaces) returns (r: Result<(seq<XmlAttribute>, Namespaces)>)
      requires pos <= |xml|
      modifies this`pos
      ensures pos <= |xml| && Agrees(r, Rest(), ParseAttributes(old(Rest()), [], ns0))
    {
      var attrs, ns := [], ns0;
      while true
        invariant pos <= |xml|
        invariant ParseAttributes(Rest(), attrs, ns) == ParseAttributes(old(Rest()), [], ns0)
        decreases |xml| - pos
      {
        SkipWhitespace();
        if pos >= |xml| { return Failure(AttributeAtEnd); }
        if xml[pos] == '/' || xml[pos] == '>' { break; }
        ghost var before := Rest();
        var raw :- ReadRawName();
        SkipWhitespace();
        if !PeekChar('=') { return Failure(MissingEquals); }
        Advance(1);
        var value :- ReadAttributeValue();
        assert ParseAttribute(before) == Ok((raw, value), Rest());
        attrs, ns := AttributesAfter(attrs, ns, raw, value), NamespacesAfter(ns, raw, value);
      }
      return Success((attrs, ns));
    }

    method FlushTextBuffer(raw: string, text: string) returns (out: string)
      ensures out == Flushed(policy, text, raw)
    {
      if raw == "" { return text; }
      match policy {
        case TrimAndDiscardEmpty =>
          var trimmed := TrimSpaces(raw);
          if trimmed == "" { return text; }
          var decoded := DecodeEntities(trimmed);
          out := text;
          if text != "" { out := out + " "; }
          out := out + decoded;
        case Preserve =>
          var decoded := DecodeEntities(raw);
          out := text + decoded;
        case CollapseWhitespaceOnly =>
          if AllSpace(raw) {
            out := text + " ";
          } else {
            var trimmed := TrimSpaces(raw);
            if trimmed == "" { return text; }
            var decoded := DecodeEntities(trimmed);
            out := text;
            if text != "" { out := out + " "; }
            out := out + decoded;
          }
      }
    }

    method ReadEndTag(node: XmlNode) returns (r: Result<XmlNode>)
      requires pos <= |xml|
      modifies this`pos
      ensures pos <= |xml| && Agrees(r, Rest(), ParseEndTag(old(Rest()), node))
    {
      var raw :- ReadRawName();
      SkipWhitespace();
      if !PeekChar('>') { return Failure(NoEndTagEnd); }
      Advance(1);
      if LocalName(raw) != node.name { return Failure(TagMismatch); }
      return Success(node);
    }

    method ReadElement(ns0: Namespaces) returns (r: Result<XmlNode>)
      requires pos <= |xml|
      modifies this`pos
      ensures pos <= |xml| && Agrees(r, Rest(), ParseElement(policy, old(Rest()), ns0))
      ensures r.Success? ==> pos > old(pos)
      decreases |xml| - pos, 0
    {
      if !PeekChar('<') { return Failure(NoElementStart); }
      Advance(1);
      if PeekChar('/') { return Failure(UnexpectedEndTag); }
      var raw :- ReadRawName();
      SkipWhitespace();
      var attrs :- ReadAttributes(ns0);
      var node := StartOfNode(raw, attrs.0, attrs.1);
      if LooksAt("/>") {
        Advance(2);
        return Success(node);
      }
      if !PeekChar('>') { return Failure(NoTagEnd); }
      Advance(1);
      r := ReadContent(node, attrs.1);
    }

    method ReadContent(start: XmlNode, ns: Namespaces) returns (r: Result<XmlNode>)
      requires pos <= |xml|
      modifies this`pos
      ensures pos <= |xml| && Agrees(r, Rest(), ParseContent(policy, old(Rest()), start, "", ns))
      ensures r.Success? ==> pos >= old(pos)
      decreases |xml| - pos, 2
    {
      hide ParseContent, Markup, StartsWith, Flushed, IndexOf;
      var node, buffer := start, "";
      while pos < |xml|
        invariant old(pos) <= pos <= |xml|
        invariant ParseContent(policy, Rest(), node, buffer, ns) == ParseContent(policy, old(Rest()), start, "", ns)
        decreases |xml| - pos
      {
        ghost var before := Rest();
        if PeekChar('<') {
          var text := FlushTextBuffer(buffer, node.text);
          MarkupStep(policy, before, node, buffer, ns);
          node, buffer := node.(text := text), "";
          if LooksAt("</") {
            EndTagStep(policy, before, node, ns);
            Advance(2);
            r := ReadEndTag(node);
            return;
          }
          node :- ReadInside(node, ns);
        } else {
          TextStep(policy, before, node, buffer, ns);
          var text := ReadUntil('<');
          buffer := buffer + text;
        }
      }
      ContentEnds(policy, node, buffer, ns);
      assert Rest() == "";
      var text := FlushTextBuffer(buffer, node.text);
      return Success(node.(text := text));
    }

    /** The branches of the content loop for everything but the end tag. */
    method ReadInside(node: XmlNode, ns: Namespaces) returns (r: Result<XmlNode>)
      requires pos < |xml| && Rest()[0] == '<' && !StartsWith(Rest(), "</")
      modifies this`pos
      ensures pos <= |xml|
      ensures match r
              case Success(node') =>
                pos > old(pos) && ParseContent(policy, Rest(), node', "", ns) == Markup(policy, old(Rest()), node, ns)
              case Failure(error) => Markup(policy, old(Rest()), node, ns) == Fail(error)
      decreases |xml| - pos, 1
    {
      hide ParseContent, ParseElement, SkipPast, StartsWith;
      if LooksAt("<!--") {
        Advance(4);
        var _ :- SkipSection("-->", UnclosedComment);
        return Success(node);
      } else if LooksAt("<?") {
        Advance(2);
        var _ :- SkipSection("?>", UnclosedInstruction);
        return Success(node);
      } else if LooksAt("<![CDATA[") {
        Advance(9);
        var cdata :- SkipSection("]]>", UnclosedCData);
        return Success(node.(text := (if node.text != "" then node.text + " " else "") + cdata));
      }
      var child :- ReadElement(ns);
      return Success(node.(children := node.children + [child]));
    }

    method SkipDeclarationAndMisc() returns (r: Result<()>)
      requires pos <= |xml|
      modifies this`pos
      ensures pos <= |xml| && Agrees(r, Rest(), SkipMisc(old(Rest())))
    {
      while true
        invariant pos <= |xml| && SkipMisc(Rest()) == SkipMisc(old(Rest()))
        decreases |xml| - pos
      {
        SkipWhitespace();
        MiscStartsWithMarkup(Rest());
        if !PeekChar('<') { return Success(()); }
        if LooksAt("<?") {
          Advance(2);
          var _ :- SkipSection("?>", UnclosedInstruction);
        } else if LooksAt("<!--") {
          Advance(4);
          var _ :- SkipSection("-->", UnclosedComment);
        } else {
          return Success(());
        }
      }
    }

    method ParseDocument() returns (r: Result<XmlNode>)
      modifies this`pos
      ensures match Parse(policy, xml)
              case Ok(node, _) => r == Success(node)
              case Fail(error) => r == Failure(error)
    {
      if xml == "" { return Failure(EmptyInput); }
      pos := 0;
      assert Rest() == xml;
      SkipWhitespace();
      SkipMiscAfterSpace(xml);
      var _ :- SkipDeclarationAndMisc();
      SkipWhitespace();
      if !PeekChar('<') { return Failure(NoRootTag); }
      r := ReadElement(map[]);
      if r.Success? { SkipWhitespace(); }
    }
  }

  function Prepended(before: string, r: Parsed<string>): Parsed<string> {
    if r.Fail? then r else Ok(before + r.value, r.rest)
  }

  lemma NothingPrepended(r: Parsed<string>)
    ensures Prepended("", r) == r
  {
    if r.Ok? { assert "" + r.value == r.value; }
  }

  lemma SectionStep(before: string, s: string, close: string, error: XmlError)
    requires |s| >= |close| > 0 && !StartsWith(s, close)
    ensures Prepended(before, SkipPast(s, close, error)) == Prepended(before + [s[0]], SkipPast(s[1..], close, error))
  {
    var r := SkipPast(s[1..], close, error);
    if r.Ok? { Regrouped(before, [s[0]], r.value); }
  }

  lemma SectionEnds(before: string, s: string, close: string, error: XmlError)
    requires close != ""
    ensures |s| < |close| ==> Prepended(before, SkipPast(s, close, error)) == Fail(error)
    ensures StartsWith(s, close) ==> Prepended(before, SkipPast(s, close, error)) == Ok(before, s[|close|..])
  {
    assert before + "" == before;
  }

  lemma MiscStartsWithMarkup(s: string)
    ensures s == "" || s[0] != '<' ==> !StartsWith(s, "<?") && !StartsWith(s, "<!--")
  {
    if s != "" && s[0] != '<' {
      NotPrefix(s, "<?", 0);
      NotPrefix(s, "<!--", 0);
    }
  }

  lemma SkipMiscAfterSpace(s: string)
    ensures SkipMisc(SkipSpace(s)) == SkipMisc(s)
    ensures var r := SkipMisc(s); r.Ok? ==> SkipSpace(r.rest) == r.rest
  {
    SkipSpaceShape(s);
    SkipMiscEndsOnContent(s);
  }

  lemma {:induction false} SkipMiscEndsOnContent(s: string)
    ensures var r := SkipMisc(s); r.Ok? ==> SkipSpace(r.rest) == r.rest
    decreases |s|
  {
    var s1 := SkipSpace(s);
    SkipSpaceShape(s);
    if StartsWith(s1, "<?") {
      var r := SkipPast(s1[2..], "?>", UnclosedInstruction);
      if r.Ok? { SkipMiscEndsOnContent(r.rest); }
    } else if StartsWith(s1, "<!--") {
      var r := SkipPast(s1[4..], "-->", UnclosedComment);
      if r.Ok? { SkipMiscEndsOnContent(r.rest); }
    }
  }
}
