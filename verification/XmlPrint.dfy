/**
  Encoding and printing: what EncodeString and TiXmlPrinter produce, as functions, and the visitor
  with its buffer, depth and simple-text flag.
 */
module XmlPrint {
  import opened Concat
  import opened XmlLex
  import opened XmlParse

  // ---------- EncodeString ----------

  const HEX_REFERENCE: string := "&#x"

  function HexDigit(d: nat): char
    requires d < 16
  {
    if d < 10 then ('0' as int + d) as char else ('A' as int + d - 10) as char
  }

  /** The code of one character: one of the five entities, a two-digit reference below 32, or itself. */
  function EncodeChar(c: char): (r: string)
    ensures r != ""
  {
    if c == '&' then "&amp;"
    else if c == '<' then "&lt;"
    else if c == '>' then "&gt;"
    else if c == '\"' then "&quot;"
    else if c == '\'' then "&apos;"
    else if c as int < 32 then ['&', '#', 'x', HexDigit(c as int / 16), HexDigit(c as int % 16), ';']
    else [c]
  }

  /** How far a hexadecimal reference is passed through: in front of its semicolon, or of the last character. */
  function PassThrough(s: string, i: nat): (r: nat)
    requires i < |s|
    ensures i <= r < |s|
    decreases |s| - i
  {
    if i + 1 < |s| && (i == 0 || s[i] != ';') then PassThrough(s, i + 1) else i
  }

  function Encode(s: string): string
    decreases |s|
  {
    if s == "" then ""
    else if HEX_REFERENCE <= s then
      var k := PassThrough(s, 0);
      assert k > 0;
      s[..k] + Encode(s[k..])
    else EncodeChar(s[0]) + Encode(s[1..])
  }

  /** EncodeString appends the code of str to out. */
  method EncodeString(str: string, out: string) returns (r: string)
    ensures r == out + Encode(str)
  {
    r := out;
    var i := 0;
    while i < |str|
      invariant 0 <= i <= |str|
      invariant r + Encode(str[i..]) == out + Encode(str)
    {
      var c := str[i];
      ghost var rest := str[i..];
      if c == '&' && i < |str| - 2 && str[i + 1] == '#' && str[i + 2] == 'x' {
        assert rest[..3] == HEX_REFERENCE;
        ghost var before, k := r, PassThrough(rest, 0);
        r, i := PassReference(str, i, r);
        Regroup(before, rest[..k], Encode(rest[k..]));
      } else {
        assert rest[0] == c && rest[1..] == str[i + 1..];
        assert !(HEX_REFERENCE <= rest);
        Regroup(r, EncodeChar(c), Encode(str[i + 1..]));
        r := r + EncodeChar(c);
        i := i + 1;
      }
    }
  }

  method Encoded(str: string) returns (r: string)
    ensures r == Encode(str)
  {
    r := EncodeString(str, "");
    assert "" + Encode(str) == Encode(str);
  }

  method PassReference(str: string, from: nat, out: string) returns (r: string, i: nat)
    requires from + 2 < |str|
    ensures var k := PassThrough(str[from..], 0);
            i == from + k && r == out + str[from..][..k] && str[i..] == str[from..][k..]
  {
    r, i := out, from;
    ghost var rest := str[from..];
    while i < |str| - 1
      invariant from <= i < |str|
      invariant PassThrough(rest, i - from) == PassThrough(rest, 0)
      invariant i == from || str[i] != ';'
      invariant r == out + rest[..i - from]
    {
      assert rest[i - from] == str[i];
      r := r + [str[i]];
      i := i + 1;
      if str[i] == ';' {
        break;
      }
    }
  }

  // ---------- The printer ----------

  /** The text of an attribute: double quotes unless the value has one. */
  function PrintAttribute(a: Attribute): string {
    if '\"' in a.value then Encode(a.name) + "='" + Encode(a.value) + "'"
    else Encode(a.name) + "=\"" + Encode(a.value) + "\""
  }

  /** Where Next leads from the attribute at i: an attribute with neither name nor value passes for the sentinel. */
  function NextAttribute(attributes: seq<Attribute>, i: nat): (j: nat)
    requires i < |attributes|
    ensures i < j <= |attributes|
  {
    if i + 1 < |attributes| && attributes[i + 1] == Attribute("", "") then |attributes| else i + 1
  }

  /** The attributes that a walk with Next meets. */
  function PrintAttributes(attributes: seq<Attribute>): string
    decreases |attributes|
  {
    if attributes == [] then ""
    else " " + PrintAttribute(attributes[0]) + PrintAttributes(attributes[NextAttribute(attributes, 0)..])
  }

  datatype Style = Style(indent: string, lineBreak: string)

  function Indent(style: Style, depth: nat): string {
    if depth == 0 then "" else style.indent + Indent(style, depth - 1)
  }

  /** An element whose only child is plain text is printed on one line. */
  predicate IsSimple(children: seq<Node>) {
    |children| == 1 && children[0].Text? && !children[0].cdata
  }

  function Field(name: string, value: string): string {
    if value == "" then "" else name + "=\"" + value + "\" "
  }

  lemma AppendThree(out: string, a: string, b: string, c: string)
    ensures out + a + b + c == out + (a + b + c)
  {
  }

  /** A node without the indentation in front of it and the line break after it. */
  function PrintBody(n: Node, depth: nat, style: Style): string
    decreases n, 0
  {
    match n
    case Element(name, attributes, children) =>
      var start := "<" + CStr(name) + PrintAttributes(attributes);
      var end := "</" + CStr(name) + ">";
      if children == [] then start + " />"
      else if IsSimple(children) then start + ">" + Encode(children[0].value) + end
      else start + ">" + style.lineBreak + PrintNodes(children, depth + 1, style) + Indent(style, depth) + end
    case Text(value, cdata) => if cdata then CDATA_START + CStr(value) + CDATA_END else Encode(value)
    case Comment(value) => COMMENT_START + CStr(value) + COMMENT_END
    case Unknown(value) => "<" + CStr(value) + ">"
    case Declaration(version, encoding, standalone) =>
      "<?xml " + Field("version", version) + Field("encoding", encoding) + Field("standalone", standalone) + "?>"
  }

  function PrintNodes(nodes: seq<Node>, depth: nat, style: Style): string
    decreases nodes, 1
  {
    if nodes == [] then ""
    else
      Indent(style, depth) + PrintBody(nodes[0], depth, style) + style.lineBreak
      + PrintNodes(nodes[1..], depth, style)
  }

  lemma PrintAttributesStep(attributes: seq<Attribute>, i: nat)
    requires i < |attributes|
    ensures PrintAttributes(attributes[i..])
         == " " + PrintAttribute(attributes[i]) + PrintAttributes(attributes[NextAttribute(attributes, i)..])
  {
    var rest := attributes[i..];
    assert rest[NextAttribute(rest, 0)..] == attributes[NextAttribute(attributes, i)..];
  }

  lemma PrintNodesStep(nodes: seq<Node>, i: nat, depth: nat, style: Style)
    requires i < |nodes|
    ensures PrintNodes(nodes[i..], depth, style)
         == Indent(style, depth) + PrintBody(nodes[i], depth, style) + style.lineBreak
            + PrintNodes(nodes[i + 1..], depth, style)
  {
    assert nodes[i..][1..] == nodes[i + 1..];
  }

  // The parts of an element's text that the visitor appends on entry and on exit.

  function StartTag(n: Node): string
    requires n.Element?
  {
    "<" + CStr(n.name) + PrintAttributes(n.attributes)
  }

  function TagLine(n: Node, style: Style): string
    requires n.Element?
  {
    if n.children == [] then StartTag(n) + " />" + style.lineBreak
    else StartTag(n) + ">" + (if IsSimple(n.children) then "" else style.lineBreak)
  }

  function Opening(n: Node, depth: nat, style: Style): string
    requires n.Element?
  {
    Indent(style, depth) + TagLine(n, style)
  }

  function Closing(n: Node, depth: nat, style: Style, simple: bool): string
    requires n.Element?
  {
    if n.children == [] then ""
    else (if simple then "" else Indent(style, depth)) + ("</" + CStr(n.name) + ">") + style.lineBreak
  }

  function Inner(n: Node, depth: nat, style: Style): string
    requires n.Element?
  {
    if IsSimple(n.children) then Encode(n.children[0].value) else PrintNodes(n.children, depth + 1, style)
  }

  lemma ElementLine(n: Node, depth: nat, style: Style)
    requires n.Element?
    ensures Indent(style, depth) + PrintBody(n, depth, style) + style.lineBreak
         == Opening(n, depth, style) + Inner(n, depth, style) + Closing(n, depth, style, IsSimple(n.children))
  {
    var indent, start, end := Indent(style, depth), StartTag(n), "</" + CStr(n.name) + ">";
    if n.children == [] {
      JoinLine(indent, start, " />", "", "", style.lineBreak);
    } else if IsSimple(n.children) {
      JoinLine(indent, start, ">", Inner(n, depth, style), end, style.lineBreak);
      assert "" + end + style.lineBreak == end + style.lineBreak && start + ">" + "" == start + ">";
    } else {
      JoinLine(indent, start, ">" + style.lineBreak, Inner(n, depth, style), indent + end, style.lineBreak);
      Regroup(start, ">", style.lineBreak);
      Regroup(start + ">" + style.lineBreak + Inner(n, depth, style), indent, end);
    }
  }

  lemma JoinLine(indent: string, start: string, open: string, inner: string, end: string, lineBreak: string)
    ensures indent + (start + open + inner + end) + lineBreak == (indent + (start + open)) + inner + (end + lineBreak)
    ensures inner == end == "" ==>
              indent + (start + open) + lineBreak == (indent + (start + open + lineBreak)) + inner + ""
  {
    AppendThree(indent, start + open, inner, end);
    Regroup(indent + (start + open) + inner, end, lineBreak);
    Regroup(indent, start + open, lineBreak);
  }

  /** TiXmlPrinter: the visitor that Accept drives over a tree. */
  class Printer {
    var depth: nat
    var simpleTextPrint: bool
    var buffer: string
    var style: Style

    constructor ()
      ensures depth == 0 && !simpleTextPrint && buffer == "" && style == Style("    ", "\n")
    {
      depth, simpleTextPrint, buffer, style := 0, false, "", Style("    ", "\n");
    }

    method SetStreamPrinting()
      modifies this`style
      ensures style == Style("", "")
    {
      style := Style("", "");
    }

    method DoIndent()
      modifies this`buffer
      ensures buffer == old(buffer) + Indent(style, depth)
    {
      var i := 0;
      while i < depth
        invariant 0 <= i <= depth
        invariant buffer + Indent(style, depth - i) == old(buffer) + Indent(style, depth)
      {
        assert buffer + style.indent + Indent(style, depth - i - 1) == buffer + Indent(style, depth - i);
        buffer := buffer + style.indent;
        i := i + 1;
      }
    }

    method DoLineBreak()
      modifies this`buffer
      ensures buffer == old(buffer) + style.lineBreak
    {
      buffer := buffer + style.lineBreak;
    }

    method PrintOneAttribute(a: Attribute)
      modifies this`buffer
      ensures buffer == old(buffer) + PrintAttribute(a)
    {
      var n := Encoded(a.name);
      var v := Encoded(a.value);
      if '\"' !in a.value {
        buffer := buffer + (n + "=\"" + v + "\"");
      } else {
        buffer := buffer + (n + "='" + v + "'");
      }
    }

    method PrintAttributeList(attributes: seq<Attribute>)
      modifies this`buffer
      ensures buffer == old(buffer) + PrintAttributes(attributes)
    {
      var i := 0;
      while i < |attributes|
        invariant 0 <= i <= |attributes|
        invariant buffer + PrintAttributes(attributes[i..]) == old(buffer) + PrintAttributes(attributes)
      {
        ghost var before := buffer;
        buffer := buffer + " ";
        PrintOneAttribute(attributes[i]);
        PrintAttributesStep(attributes, i);
        var next := NextAttribute(attributes, i);
        AppendThree(before, " ", PrintAttribute(attributes[i]), PrintAttributes(attributes[next..]));
        i := next;
      }
    }

    method VisitEnter(element: Node)
      requires element.Element?
      modifies this`buffer, this`depth, this`simpleTextPrint
      ensures depth == old(depth) + 1
      ensures simpleTextPrint == (IsSimple(element.children) || old(simpleTextPrint))
      ensures buffer == old(buffer) + Opening(element, old(depth), style)
    {
      DoIndent();
      ghost var indented := buffer;
      buffer := buffer + "<";
      buffer := buffer + CStr(element.name);
      PrintAttributeList(element.attributes);
      AppendThree(indented, "<", CStr(element.name), PrintAttributes(element.attributes));
      if element.children == [] {
        buffer := buffer + " />";
        DoLineBreak();
        AppendThree(indented, StartTag(element), " />", style.lineBreak);
      } else {
        buffer := buffer + ">";
        if element.children[0].Text? && |element.children| == 1 && !element.children[0].cdata {
          simpleTextPrint := true;
        } else {
          DoLineBreak();
        }
        AppendThree(indented, StartTag(element), ">", if IsSimple(element.children) then "" else style.lineBreak);
      }
      Regroup(old(buffer), Indent(style, depth), TagLine(element, style));
      depth := depth + 1;
    }

    method VisitExit(element: Node)
      requires element.Element? && depth > 0
      modifies this`buffer, this`depth, this`simpleTextPrint
      ensures depth == old(depth) - 1
      ensures simpleTextPrint == (element.children == [] && old(simpleTextPrint))
      ensures buffer == old(buffer) + Closing(element, depth, style, old(simpleTextPrint))
    {
      depth := depth - 1;
      if element.children != [] {
        ghost var margin := if simpleTextPrint then "" else Indent(style, depth);
        if simpleTextPrint {
          simpleTextPrint := false;
        } else {
          DoIndent();
        }
        assert buffer == old(buffer) + margin;
        ghost var indented := buffer;
        Bracketed("</", CStr(element.name), ">");
        DoLineBreak();
        assert buffer == indented + ("</" + CStr(element.name) + ">") + style.lineBreak;
        AppendThree(old(buffer), margin, "</" + CStr(element.name) + ">", style.lineBreak);
      }
    }

    ghost function Line(n: Node): string
      reads this
    {
      Indent(style, depth) + PrintBody(n, depth, style) + style.lineBreak
    }

    method Bracketed(open: string, value: string, close: string)
      modifies this`buffer
      ensures buffer == old(buffer) + (open + value + close)
    {
      buffer := buffer + open;
      buffer := buffer + value;
      buffer := buffer + close;
      AppendThree(old(buffer), open, value, close);
    }

    method VisitText(n: Node)
      requires n.Text?
      modifies this`buffer
      ensures buffer == old(buffer) + if simpleTextPrint && !n.cdata then Encode(n.value) else Line(n)
    {
      if n.cdata {
        DoIndent();
        Bracketed(CDATA_START, CStr(n.value), CDATA_END);
        DoLineBreak();
        AppendThree(old(buffer), Indent(style, depth), PrintBody(n, depth, style), style.lineBreak);
      } else if simpleTextPrint {
        var str := Encoded(n.value);
        buffer := buffer + str;
      } else {
        DoIndent();
        var str := Encoded(n.value);
        buffer := buffer + str;
        DoLineBreak();
        AppendThree(old(buffer), Indent(style, depth), PrintBody(n, depth, style), style.lineBreak);
      }
    }

    method VisitComment(n: Node)
      requires n.Comment?
      modifies this`buffer
      ensures buffer == old(buffer) + Line(n)
    {
      DoIndent();
      Bracketed(COMMENT_START, CStr(n.value), COMMENT_END);
      DoLineBreak();
      AppendThree(old(buffer), Indent(style, depth), PrintBody(n, depth, style), style.lineBreak);
    }

    method VisitUnknown(n: Node)
      requires n.Unknown?
      modifies this`buffer
      ensures buffer == old(buffer) + Line(n)
    {
      DoIndent();
      Bracketed("<", CStr(n.value), ">");
      DoLineBreak();
      AppendThree(old(buffer), Indent(style, depth), PrintBody(n, depth, style), style.lineBreak);
    }

    method VisitDeclaration(n: Node)
      requires n.Declaration?
      modifies this`buffer
      ensures buffer == old(buffer) + Line(n)
    {
      DoIndent();
      PrintDeclaration(n);
      DoLineBreak();
      AppendThree(old(buffer), Indent(style, depth), PrintBody(n, depth, style), style.lineBreak);
    }

    /** The Print of a declaration. */
    method PrintDeclaration(n: Node)
      requires n.Declaration?
      modifies this`buffer
      ensures buffer == old(buffer) + PrintBody(n, depth, style)
    {
      var text := "<?xml ";
      if n.version != "" {
        text := text + ("version" + "=\"" + n.version + "\" ");
      }
      if n.encoding != "" {
        text := text + ("encoding" + "=\"" + n.encoding + "\" ");
      }
      if n.standalone != "" {
        text := text + ("standalone" + "=\"" + n.standalone + "\" ");
      }
      text := text + "?>";
      assert text == PrintBody(n, depth, style);
      buffer := buffer + text;
    }

    /** Accept of a node outside a simple element appends the node on lines of its own. */
    method Accept(n: Node)
      requires !simpleTextPrint
      modifies this`buffer, this`depth, this`simpleTextPrint
      ensures depth == old(depth) && !simpleTextPrint
      ensures buffer == old(buffer) + Line(n)
      decreases n, 0
    {
      match n {
        case Element(_, _, _) => AcceptElement(n);
        case Text(_, _) => VisitText(n);
        case Comment(_) => VisitComment(n);
        case Unknown(_) => VisitUnknown(n);
        case Declaration(_, _, _) => VisitDeclaration(n);
      }
    }

    method AcceptElement(n: Node)
      requires !simpleTextPrint && n.Element?
      modifies this`buffer, this`depth, this`simpleTextPrint
      ensures depth == old(depth) && !simpleTextPrint
      ensures buffer == old(buffer) + Line(n)
      decreases n, 0, 1
    {
      VisitEnter(n);
      AcceptChildren(n);
      VisitExit(n);
      ElementLine(n, depth, style);
      AppendThree(old(buffer), Opening(n, depth, style), Inner(n, depth, style),
                  Closing(n, depth, style, IsSimple(n.children)));
    }

    method AcceptChildren(n: Node)
      requires n.Element? && simpleTextPrint == IsSimple(n.children) && depth > 0
      modifies this`buffer, this`depth, this`simpleTextPrint
      ensures depth == old(depth) && simpleTextPrint == old(simpleTextPrint)
      ensures buffer == old(buffer) + Inner(n, depth - 1, style)
      decreases n, 0, 0
    {
      if simpleTextPrint {
        VisitText(n.children[0]);
      } else {
        AcceptAll(n.children);
      }
    }

    /** The loop over the children of an element or of the document. */
    method AcceptAll(nodes: seq<Node>)
      requires !simpleTextPrint
      modifies this`buffer, this`depth, this`simpleTextPrint
      ensures depth == old(depth) && !simpleTextPrint
      ensures buffer == old(buffer) + PrintNodes(nodes, depth, style)
      decreases nodes, 1
    {
      var i := 0;
      while i < |nodes|
        invariant 0 <= i <= |nodes|
        invariant depth == old(depth) && !simpleTextPrint
        invariant buffer + PrintNodes(nodes[i..], depth, style) == old(buffer) + PrintNodes(nodes, depth, style)
      {
        ghost var before := buffer;
        Accept(nodes[i]);
        PrintNodesStep(nodes, i, depth, style);
        Regroup(before, Line(nodes[i]), PrintNodes(nodes[i + 1..], depth, style));
        i := i + 1;
      }
    }
  }
}
