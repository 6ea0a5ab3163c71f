/** The printer and the parser as they run, one after the other. */
module XmlReparse {
  import D = XmlDom
  import opened XmlBuild
  import opened XmlParse
  import opened XmlParser
  import opened XmlPrint
  import opened XmlRoundTrip

  /** White space kept, only a printer in stream mode or without indentation and line breaks will do. */
  predicate Suits(stream: bool, style: Style, condense: bool) {
    stream || WhiteStyle(style, condense)
  }

  /** Accept with a printer in stream mode or with the given indentation and line break. */
  method PrintAll(nodes: seq<Node>, stream: bool, style: Style, condense: bool) returns (text: string)
    requires nodes != [] && ValidNodes(nodes, condense) && NoPlainText(nodes) && Suits(stream, style, condense)
    ensures '\0' !in text
    ensures ParseDocument(text, condense).value == nodes && ParseDocument(text, condense).err == NoError
  {
    var printer := new Printer();
    printer.style := style;
    if stream {
      printer.SetStreamPrinting();
    }
    ghost var used := printer.style;
    printer.AcceptAll(nodes);
    assert printer.buffer == PrintNodes(nodes, 0, used);
    NodesHaveNoNul(nodes, 0, used, condense);
    ParseOfPrinted(nodes, used, condense);
    hide *;
    return printer.buffer;
  }

  /** Parse of the printer's buffer: the same nodes, and no error. */
  method PrintThenParse(nodes: seq<Node>, stream: bool, style: Style, condense: bool)
    returns (restored: seq<Node>, error: Error)
    requires nodes != [] && ValidNodes(nodes, condense) && NoPlainText(nodes) && Suits(stream, style, condense)
    ensures restored == nodes && error == NoError
  {
    var text := PrintAll(nodes, stream, style, condense);
    var document := new Document(text, condense);
    var p := document.Parse();
    return document.children, document.error;
  }

  /** The same with the nodes linked: the tree under the new document spells out the printed nodes. */
  method PrintThenLink(nodes: seq<Node>, stream: bool, style: Style, condense: bool)
    returns (root: D.Node, error: Error, ghost all: set<D.Node>)
    requires nodes != [] && ValidNodes(nodes, condense) && NoPlainText(nodes) && Suits(stream, style, condense)
    ensures fresh(all) && root in all && D.Forest(all) && error == NoError
    ensures ShowsAll(D.NetOf(all), Labels(all), root.kids, nodes, all)
  {
    hide ShowsAll;
    var text := PrintAll(nodes, stream, style, condense);
    root, error, all := ParseAndLink(text, condense);
  }
}
