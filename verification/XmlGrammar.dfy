/** What the recursive-descent parser accepts, as functions of the remaining input. Each returns a value with the
    input that is left, or the error that stops the parser there. Names, attributes with their namespaces, text
    under the three policies, comments, processing instructions and character data are all included here. */
module XmlGrammar {
  import opened CStrings
  import opened XmlText
  import opened XmlSerializer

  datatype XmlError =
    | EmptyInput | NoRootTag | NoElementStart | UnexpectedEndTag
    | NameAtEnd | BadNameStart
    | AttributeAtEnd | MissingEquals | ValueAtEnd | UnquotedValue | UnclosedValue
    | NoTagEnd | NoEndTagEnd | TagMismatch
    | UnclosedComment | UnclosedInstruction | UnclosedCData

  /** A value and the input that is left, or the error that stops the parser. */
  datatype Parsed<+T> = Ok(value: T, rest: string) | Fail(error: XmlError)

  datatype TextPolicy = TrimAndDiscardEmpty | Preserve | CollapseWhitespaceOnly

  type Namespaces = map<string, string>

  // Names

  function NameLength(s: string): (n: nat)
    ensures n <= |s|
  {
    if s != "" && IsNameChar(s[0]) then 1 + NameLength(s[1..]) else 0
  }

  function ParseRawName(s: string): (r: Parsed<string>)
    ensures r.Ok? ==> |r.rest| < |s|
  {
    if s == "" then Fail(NameAtEnd)
    else if !IsNameChar(s[0]) then Fail(BadNameStart)
    else var n := NameLength(s); Ok(s[..n], s[n..])
  }

  function LocalName(raw: string): string {
    var n := IndexOf(raw, ':');
    if n == |raw| then raw else raw[n + 1..]
  }

  function PrefixOf(raw: string): string {
    var n := IndexOf(raw, ':');
    if n == |raw| then "" else raw[..n]
  }

  // Attributes

  function ParseAttributeValue(s: string): (r: Parsed<string>)
    ensures r.Ok? ==> |r.rest| < |s|
  {
    var s1 := SkipSpace(s);
    if s1 == "" then Fail(ValueAtEnd)
    else if s1[0] != '"' && s1[0] != '\'' then Fail(UnquotedValue)
    else ParseQuoted(s1[0], s1[1..])
  }

  /** The text up to the closing quote, and what follows that quote. */
  function ParseQuoted(quote: char, s: string): (r: Parsed<string>)
    ensures r.Ok? ==> |r.rest| < |s|
  {
    var n := IndexOf(s, quote);
    if n == |s| then Fail(UnclosedValue) else Ok(Decoded(s[..n]), s[n + 1..])
  }

  function NamespacesAfter(ns: Namespaces, raw: string, value: string): Namespaces {
    if raw == "xmlns" then ns["" := value]
    else if StartsWith(raw, "xmlns:") then ns[raw[6..] := value]
    else ns
  }

  predicate DeclaresNamespace(raw: string) {
    raw == "xmlns" || StartsWith(raw, "xmlns:")
  }

  function ParsedAttribute(ns: Namespaces, raw: string, value: string): XmlAttribute {
    var prefix := PrefixOf(raw);
    XmlAttribute(LocalName(raw), value, prefix, if prefix != "" && prefix in ns then ns[prefix] else "")
  }

  function AttributesAfter(attrs: seq<XmlAttribute>, ns: Namespaces, raw: string, value: string): seq<XmlAttribute> {
    if DeclaresNamespace(raw) then attrs else attrs + [ParsedAttribute(ns, raw, value)]
  }

  /** One attribute: its raw name and decoded value. */
  function ParseAttribute(s: string): (r: Parsed<(string, string)>)
    ensures r.Ok? ==> |r.rest| < |s|
  {
    var name := ParseRawName(s);
    if name.Fail? then Fail(name.error)
    else
      var s1 := SkipSpace(name.rest);
      if s1 == "" || s1[0] != '=' then Fail(MissingEquals)
      else
        var value := ParseAttributeValue(s1[1..]);
        if value.Fail? then Fail(value.error) else Ok((name.value, value.value), value.rest)
  }

  function ParseAttributes(s: string, attrs: seq<XmlAttribute>, ns: Namespaces)
    : (r: Parsed<(seq<XmlAttribute>, Namespaces)>)
    ensures r.Ok? ==> |r.rest| <= |s|
    decreases |s|
  {
    var s1 := SkipSpace(s);
    if s1 == "" then Fail(AttributeAtEnd)
    else if s1[0] == '/' || s1[0] == '>' then Ok((attrs, ns), s1)
    else
      var a := ParseAttribute(s1);
      if a.Fail? then Fail(a.error)
      else
        ParseAttributes(a.rest, AttributesAfter(attrs, ns, a.value.0, a.value.1),
                        NamespacesAfter(ns, a.value.0, a.value.1))
  }

  // Text

  function Flushed(policy: TextPolicy, text: string, raw: string): string {
    if raw == "" then text
    else
      match policy
      case TrimAndDiscardEmpty =>
        if Trimmed(raw) == "" then text
        else (if text != "" then text + " " else text) + Decoded(Trimmed(raw))
      case Preserve => text + Decoded(raw)
      case CollapseWhitespaceOnly =>
        if AllSpace(raw) then text + " "
        else if Trimmed(raw) == "" then text
        else (if text != "" then text + " " else text) + Decoded(Trimmed(raw))
  }

  // Sections that are skipped or copied

  /** What follows the first `close` in `s`, which must fit before the end of the input. */
  function SkipPast(s: string, close: string, error: XmlError): (r: Parsed<string>)
    requires close != ""
    ensures r.Ok? ==> |r.rest| <= |s|
  {
    if |s| < |close| then Fail(error)
    else if StartsWith(s, close) then Ok("", s[|close|..])
    else
      var r := SkipPast(s[1..], close, error);
      if r.Fail? then r else Ok([s[0]] + r.value, r.rest)
  }

  // Elements

  function StartOfNode(raw: string, attrs: seq<XmlAttribute>, ns: Namespaces): XmlNode {
    var prefix := PrefixOf(raw);
    XmlNode(LocalName(raw), prefix, if prefix in ns then ns[prefix] else "", "", attrs, [])
  }

  function ParseElement(policy: TextPolicy, s: string, ns: Namespaces): (r: Parsed<XmlNode>)
    ensures r.Ok? ==> |r.rest| < |s|
    decreases |s|, 0
  {
    if s == "" || s[0] != '<' then Fail(NoElementStart)
    else if StartsWith(s[1..], "/") then Fail(UnexpectedEndTag)
    else
      var name := ParseRawName(s[1..]);
      if name.Fail? then Fail(name.error)
      else
        var attrs := ParseAttributes(SkipSpace(name.rest), [], ns);
        if attrs.Fail? then Fail(attrs.error)
        else
          var node := StartOfNode(name.value, attrs.value.0, attrs.value.1);
          if StartsWith(attrs.rest, "/>") then Ok(node, attrs.rest[2..])
          else if !StartsWith(attrs.rest, ">") then Fail(NoTagEnd)
          else ParseContent(policy, attrs.rest[1..], node, "", attrs.value.1)
  }

  /** The rest of an element whose start tag is read; `raw` is the text read and not yet stored. */
  function ParseContent(policy: TextPolicy, s: string, node: XmlNode, raw: string, ns: Namespaces): (r: Parsed<XmlNode>)
    ensures r.Ok? ==> |r.rest| <= |s|
    decreases |s|, 1
  {
    if s == "" then Ok(node.(text := Flushed(policy, node.text, raw)), "")
    else if s[0] != '<' then
      var n := IndexOf(s, '<');
      ParseContent(policy, s[n..], node, raw + s[..n], ns)
    else
      var node1 := node.(text := Flushed(policy, node.text, raw));
      if StartsWith(s, "</") then ParseEndTag(s[2..], node1)
      else if StartsWith(s, "<!--") then
        var r := SkipPast(s[4..], "-->", UnclosedComment);
        if r.Fail? then Fail(r.error) else ParseContent(policy, r.rest, node1, "", ns)
      else if StartsWith(s, "<?") then
        var r := SkipPast(s[2..], "?>", UnclosedInstruction);
        if r.Fail? then Fail(r.error) else ParseContent(policy, r.rest, node1, "", ns)
      else if StartsWith(s, "<![CDATA[") then
        var r := SkipPast(s[9..], "]]>", UnclosedCData);
        if r.Fail? then Fail(r.error)
        else
          var node2 := node1.(text := (if node1.text != "" then node1.text + " " else "") + r.value);
          ParseContent(policy, r.rest, node2, "", ns)
      else
        var child := ParseElement(policy, s, ns);
        if child.Fail? then child
        else ParseContent(policy, child.rest, node1.(children := node1.children + [child.value]), "", ns)
  }

  function ParseEndTag(s: string, node: XmlNode): (r: Parsed<XmlNode>)
    ensures r.Ok? ==> |r.rest| < |s|
  {
    var name := ParseRawName(s);
    if name.Fail? then Fail(name.error)
    else
      var s1 := SkipSpace(name.rest);
      if !StartsWith(s1, ">") then Fail(NoEndTagEnd)
      else if LocalName(name.value) != node.name then Fail(TagMismatch)
      else Ok(node, s1[1..])
  }

  /** White space, processing instructions and comments in front of the root element. */
  function SkipMisc(s: string): (r: Parsed<()>)
    ensures r.Ok? ==> |r.rest| <= |s|
    decreases |s|
  {
    var s1 := SkipSpace(s);
    if StartsWith(s1, "<?") then
      var r := SkipPast(s1[2..], "?>", UnclosedInstruction);
      if r.Fail? then Fail(r.error) else SkipMisc(r.rest)
    else if StartsWith(s1, "<!--") then
      var r := SkipPast(s1[4..], "-->", UnclosedComment);
      if r.Fail? then Fail(r.error) else SkipMisc(r.rest)
    else Ok((), s1)
  }

  function Parse(policy: TextPolicy, s: string): Parsed<XmlNode> {
    if s == "" then Fail(EmptyInput)
    else
      var misc := SkipMisc(s);
      if misc.Fail? then Fail(misc.error)
      else if !StartsWith(misc.rest, "<") then Fail(NoRootTag)
      else ParseElement(policy, misc.rest, map[])
  }
}
