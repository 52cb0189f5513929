/** Printing a tree of elements. */
module XmlSerializer {
  import opened Common
  import opened XmlText

  datatype XmlAttribute = XmlAttribute(name: string, value: string, prefix: string, nsUri: string)

  datatype XmlNode = XmlNode(
    name: string, prefix: string, nsUri: string, text: string,
    attributes: seq<XmlAttribute>, children: seq<XmlNode>)

  // The text of a tree

  function Spaces(n: nat): string {
    if n == 0 then "" else Spaces(n - 1) + " "
  }

  function AttributeText(a: XmlAttribute): string {
    " " + a.name + "=\"" + Escaped(InAttribute, a.value) + "\""
  }

  function AttributesText(attrs: seq<XmlAttribute>): string {
    if attrs == [] then "" else AttributeText(attrs[0]) + AttributesText(attrs[1..])
  }

  /** The element itself, from its '<' to its last '>'. */
  function ElementText(node: XmlNode, indent: nat): string
    decreases node, 2
  {
    "<" + (node.name + (AttributesText(node.attributes) + AfterAttributes(node, indent)))
  }

  function AfterAttributes(node: XmlNode, indent: nat): string
    decreases node, 1
  {
    if node.children == [] && node.text == "" then " />"
    else ">" + (Escaped(InText, node.text) + (ChildrenText(node, indent) + EndTag(node.name)))
  }

  function EndTag(name: string): string {
    "</" + (name + ">")
  }

  function ChildrenText(node: XmlNode, indent: nat): string
    decreases node, 0
  {
    if node.children == [] then ""
    else "\n" + (LinesOf(node.children, indent + 2) + Spaces(indent))
  }

  /** One line per child. */
  function LinesOf(nodes: seq<XmlNode>, indent: nat): string
    decreases nodes, 0
  {
    if nodes == [] then "" else LineOf(nodes[0], indent) + LinesOf(nodes[1..], indent)
  }

  function LineOf(node: XmlNode, indent: nat): string
    decreases node, 3
  {
    Spaces(indent) + (ElementText(node, indent) + "\n")
  }

  /** `<?xml version="1.0" encoding="UTF-8"?>` and a line break. */
  function Declaration(): string {
    "<?" + (DeclarationBody() + "?>\n")
  }

  function DeclarationBody(): string {
    "xml version=\"1.0\" encoding=\"UTF-8\""
  }

  function Serialized(node: XmlNode, includeDeclaration: bool): string {
    (if includeDeclaration then Declaration() else "") + LineOf(node, 0)
  }

  // The printer

  class OutputStream {
    var text: string

    constructor ()
      ensures text == ""
    {
      text := "";
    }

    method Put(s: string)
      modifies this
      ensures text == old(text) + s
    {
      text := text + s;
    }
  }

  method Indent(ss: OutputStream, indent: nat)
    modifies ss
    ensures ss.text == old(ss.text) + Spaces(indent)
  {
    for i := 0 to indent
      invariant ss.text == old(ss.text) + Spaces(i)
    {
      ss.Put(" ");
    }
  }

  lemma AppendFiveParts(b: string, s1: string, s2: string, s3: string, s4: string, s5: string)
    ensures b + s1 + s2 + s3 + s4 + s5 == b + (s1 + s2 + s3 + s4 + s5)
  {}

  method SerializeAttributes(attrs: seq<XmlAttribute>, ss: OutputStream)
    modifies ss
    ensures ss.text == old(ss.text) + AttributesText(attrs)
  {
    for i := 0 to |attrs|
      invariant ss.text + AttributesText(attrs[i..]) == old(ss.text) + AttributesText(attrs)
    {
      var value := EscapeAttr(attrs[i].value);
      ghost var before := ss.text;
      assert attrs[i..][1..] == attrs[i + 1..];
      ss.Put(" ");
      ss.Put(attrs[i].name);
      ss.Put("=\"");
      ss.Put(value);
      ss.Put("\"");
      AppendFiveParts(before, " ", attrs[i].name, "=\"", value, "\"");
      Regrouped(before, AttributeText(attrs[i]), AttributesText(attrs[i + 1..]));
    }
  }

  lemma LeafLine(b: string, sp: string, name: string, attrs: string)
    ensures b + sp + "<" + name + attrs + " />\n" == b + (sp + (("<" + (name + (attrs + " />"))) + "\n"))
  {
    assert " />\n" == " />" + "\n";
  }

  lemma BranchLine(b: string, sp: string, name: string, attrs: string, text: string, children: string)
    ensures b + sp + "<" + name + attrs + ">" + text + children + "</" + name + ">\n" ==
            b + (sp + (("<" + (name + (attrs + (">" + (text + (children + ("</" + (name + ">")))))))) + "\n"))
  {
    assert ">\n" == ">" + "\n";
  }

  method SerializeNode(node: XmlNode, ss: OutputStream, indent: nat)
    modifies ss
    ensures ss.text == old(ss.text) + LineOf(node, indent)
    decreases node, 1
  {
    Indent(ss, indent);
    ss.Put("<");
    ss.Put(node.name);
    SerializeAttributes(node.attributes, ss);
    if node.children == [] && node.text == "" {
      ss.Put(" />\n");
      LeafLine(old(ss.text), Spaces(indent), node.name, AttributesText(node.attributes));
      assert AfterAttributes(node, indent) == " />";
      return;
    }
    ss.Put(">");
    ghost var before := ss.text;
    if node.text != "" {
      var escaped := EscapeText(node.text);
      ss.Put(escaped);
    }
    assert ss.text == before + Escaped(InText, node.text);
    before := ss.text;
    if node.children != [] {
      SerializeChildren(node, ss, indent);
    }
    assert ss.text == before + ChildrenText(node, indent);
    ss.Put("</");
    ss.Put(node.name);
    ss.Put(">\n");
    BranchLine(old(ss.text), Spaces(indent), node.name, AttributesText(node.attributes),
               Escaped(InText, node.text), ChildrenText(node, indent));
    assert AfterAttributes(node, indent) ==
           ">" + (Escaped(InText, node.text) + (ChildrenText(node, indent) + EndTag(node.name)));
  }

  method SerializeChildren(node: XmlNode, ss: OutputStream, indent: nat)
    requires node.children != []
    modifies ss
    ensures ss.text == old(ss.text) + ChildrenText(node, indent)
    decreases node, 0
  {
    hide LineOf, Spaces;
    ss.Put("\n");
    ghost var start := ss.text;
    for i := 0 to |node.children|
      invariant ss.text + LinesOf(node.children[i..], indent + 2) == start + LinesOf(node.children, indent + 2)
    {
      ghost var before := ss.text;
      assert node.children[i..][1..] == node.children[i + 1..];
      SerializeNode(node.children[i], ss, indent + 2);
      Regrouped(before, LineOf(node.children[i], indent + 2), LinesOf(node.children[i + 1..], indent + 2));
    }
    Indent(ss, indent);
    Regrouped(start, LinesOf(node.children, indent + 2), Spaces(indent));
    Regrouped(old(ss.text), "\n", LinesOf(node.children, indent + 2) + Spaces(indent));
  }

  method SerializeXml(node: XmlNode, includeDeclaration: bool) returns (text: string)
    ensures text == Serialized(node, includeDeclaration)
  {
    var ss := new OutputStream();
    if includeDeclaration {
      ss.Put(Declaration());
    }
    assert ss.text == if includeDeclaration then Declaration() else "";
    SerializeNode(node, ss, 0);
    text := ss.text;
  }
}
