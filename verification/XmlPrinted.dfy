/** What the printer writes, letter by letter: the indentation of every depth, and one document with each kind of node. */
module XmlPrinted {
  import opened Concat
  import opened XmlLex
  import opened XmlParse
  import opened XmlPrint
  import opened XmlReading
  import opened XmlRoundTrip
  import opened XmlSyntax

  /** The indentation grows by the same string with every level, from nothing. */
  lemma {:induction false} IndentAdds(style: Style, a: nat, b: nat)
    ensures Indent(style, a + b) == Indent(style, a) + Indent(style, b)
    ensures Indent(style, 0) == "" && Indent(style, 1) == style.indent
  {
    if a == 0 {
      assert Indent(style, 1) == style.indent + Indent(style, 0);
    } else {
      IndentAdds(style, a - 1, b);
      Regroup(style.indent, Indent(style, a - 1), Indent(style, b));
    }
  }

  const HOST: Node := Element("h", [Attribute("p", "1"), Attribute("q", "\"")], [])
  const TITLE: Node := Element("t", [], [Text("1<2", false)])
  const RAW: Node := Element("d", [], [Text("<&", true)])
  const ROOT: Node := Element("a", [], [HOST, TITLE, RAW, Unknown("!X")])
  const DOCUMENT: seq<Node> := [Declaration("1", "", "no"), Comment("c"), ROOT]

  lemma PlainAttribute(name: string, value: string)
    requires forall c :: c in name ==> ContinuesName(c)
    requires forall c :: c in value ==> ContinuesName(c)
    ensures PrintAttribute(Attribute(name, value)) == name + "=\"" + value + "\""
  {
    hide Encode;
    EncodeName(name);
    EncodeName(value);
    assert '\"' !in value;
  }

  lemma QuoteAttribute(name: string)
    requires forall c :: c in name ==> ContinuesName(c)
    ensures PrintAttribute(Attribute(name, "\"")) == name + "='&quot;'"
  {
    hide Encode;
    EncodeName(name);
    QuoteCode();
    assert name + "='" + "&quot;" + "'" == name + "='&quot;'";
  }

  lemma EmptyElement(name: string, a: Attribute, b: Attribute, depth: nat, style: Style)
    requires '\0' !in name && b != Attribute("", "")
    ensures PrintBody(Element(name, [a, b], []), depth, style)
         == "<" + name + (" " + PrintAttribute(a) + (" " + PrintAttribute(b))) + " />"
  {
    hide PrintAttribute, PrintAttributes;
    WholeCStr(name);
    TwoAttributes(a, b);
  }

  lemma HostText(depth: nat, style: Style)
    ensures PrintBody(HOST, depth, style) == "<h p=\"1\" q='&quot;' />"
  {
    hide PrintAttribute, PrintAttributes, PrintBody;
    PlainAttribute("p", "1");
    QuoteAttribute("q");
    EmptyElement("h", HOST.attributes[0], HOST.attributes[1], depth, style);
  }

  lemma QuoteCode()
    ensures Encode("\"") == "&quot;"
  {
  }

  lemma TwoAttributes(a: Attribute, b: Attribute)
    requires b != Attribute("", "")
    ensures PrintAttributes([a, b]) == " " + PrintAttribute(a) + (" " + PrintAttribute(b))
  {
    hide PrintAttribute;
    assert [a, b][1..] == [b] && [b][1..] == [];
    assert PrintAttributes([]) == "";
    assert PrintAttributes([b]) == " " + PrintAttribute(b) + "";
  }

  lemma TitleText(depth: nat, style: Style)
    ensures PrintBody(TITLE, depth, style) == "<t>1&lt;2</t>"
  {
    assert Encode("1<2") == "1&lt;2";
    WholeCStr("t");
  }

  lemma RawText(style: Style)
    ensures PrintBody(RAW, 1, style)
         == "<d>" + style.lineBreak + (style.indent + style.indent + "<![CDATA[<&]]>" + style.lineBreak) + style.indent
            + "</d>"
  {
    hide Indent;
    IndentAdds(style, 1, 1);
    WholeCStr("d");
    WholeCStr("<&");
    var text := RAW.children[0];
    assert PrintBody(text, 2, style) == "<![CDATA[<&]]>";
    OneNode(text, 2, style);
    assert "<d" + ">" == "<d>" && "</" + "d" + ">" == "</d>";
  }

  lemma OneNode(n: Node, depth: nat, style: Style)
    ensures PrintNodes([n], depth, style) == Indent(style, depth) + PrintBody(n, depth, style) + style.lineBreak
  {
    hide PrintBody;
    assert [n][1..] == [];
    assert PrintNodes([], depth, style) == "";
  }

  lemma FirstNode(n: Node, rest: seq<Node>, depth: nat, style: Style)
    ensures PrintNodes([n] + rest, depth, style)
         == Indent(style, depth) + PrintBody(n, depth, style) + style.lineBreak + PrintNodes(rest, depth, style)
  {
    hide PrintBody;
    assert ([n] + rest)[1..] == rest;
  }

  function Line(indent: string, text: string, style: Style): string {
    indent + text + style.lineBreak
  }

  lemma ChildrenText(style: Style)
    ensures PrintNodes(ROOT.children, 1, style)
         == Line(style.indent, "<h p=\"1\" q='&quot;' />", style)
            + (Line(style.indent, "<t>1&lt;2</t>", style)
               + (Line(style.indent, "<d>" + style.lineBreak
                                     + (style.indent + style.indent + "<![CDATA[<&]]>" + style.lineBreak)
                                     + style.indent + "</d>", style)
                  + Line(style.indent, "<!X>", style)))
  {
    hide PrintBody, PrintNodes, Indent;
    IndentAdds(style, 1, 1);
    var unknown := Unknown("!X");
    HostText(1, style);
    TitleText(1, style);
    RawText(style);
    UnknownText(style);
    OneNode(unknown, 1, style);
    FirstNode(RAW, [unknown], 1, style);
    FirstNode(TITLE, [RAW, unknown], 1, style);
    FirstNode(HOST, [TITLE, RAW, unknown], 1, style);
    assert [RAW] + [unknown] == [RAW, unknown];
    assert [TITLE] + [RAW, unknown] == [TITLE, RAW, unknown];
    assert [HOST] + [TITLE, RAW, unknown] == ROOT.children;
  }

  lemma UnknownText(style: Style)
    ensures PrintBody(Unknown("!X"), 1, style) == "<!X>"
  {
    WholeCStr("!X");
  }

  /** The text of a document with a node of each kind, as Print and the printer write it. */
  lemma DocumentPrinted(style: Style)
    ensures PrintNodes(DOCUMENT, 0, style)
         == Line("", "<?xml version=\"1\" " + "standalone=\"no\" ?>", style)
            + (Line("", "<!--c-->", style)
               + Line("", "<a>" + style.lineBreak + PrintNodes(ROOT.children, 1, style) + "</a>", style))
  {
    hide PrintBody, PrintNodes, Indent;
    IndentAdds(style, 1, 1);
    var declaration, comment := DOCUMENT[0], DOCUMENT[1];
    DeclarationPrinted(style);
    CommentPrinted(style);
    RootPrinted(style);
    OneNode(ROOT, 0, style);
    FirstNode(comment, [ROOT], 0, style);
    FirstNode(declaration, [comment, ROOT], 0, style);
    assert [comment] + [ROOT] == [comment, ROOT];
    assert [declaration] + [comment, ROOT] == DOCUMENT;
  }

  lemma DeclarationPrinted(style: Style)
    ensures PrintBody(DOCUMENT[0], 0, style) == "<?xml version=\"1\" " + "standalone=\"no\" ?>"
  {
    hide Field;
    FieldPrinted("version", "1");
    FieldPrinted("standalone", "no");
    assert Field("encoding", "") == "" by { NoField(); }
    assert "<?xml " + "version=\"1\" " == "<?xml version=\"1\" " && "standalone=\"no\" " + "?>" == "standalone=\"no\" ?>";
    Regroup("<?xml version=\"1\" ", "standalone=\"no\" ", "?>");
  }

  lemma FieldPrinted(name: string, value: string)
    requires value != ""
    ensures Field(name, value) == name + "=\"" + value + "\" "
  {
  }

  lemma NoField()
    ensures Field("encoding", "") == ""
  {
  }

  lemma CommentPrinted(style: Style)
    ensures PrintBody(DOCUMENT[1], 0, style) == "<!--c-->"
  {
    WholeCStr("c");
  }

  lemma RootPrinted(style: Style)
    ensures PrintBody(ROOT, 0, style) == "<a>" + style.lineBreak + PrintNodes(ROOT.children, 1, style) + "</a>"
  {
    hide PrintNodes, Indent;
    IndentAdds(style, 1, 1);
    WholeCStr("a");
    assert !IsSimple(ROOT.children);
    assert PrintAttributes([]) == "";
    var start, children := "<" + "a" + "", PrintNodes(ROOT.children, 1, style);
    assert start + ">" == "<a>" && "</" + "a" + ">" == "</a>";
    assert start + ">" + style.lineBreak + children + "" + "</a>" == "<a>" + style.lineBreak + children + "</a>";
  }
}
