/**
  The mutually recursive TinyXML parser in byte encoding, as functions from the text in front of the
  parser to what each Parse returns: where it stopped, what it built, and the document's error.
 */
module XmlParse {
  import opened XmlLex

  datatype Attribute = Attribute(name: string, value: string)

  datatype Node =
    | Element(name: string, attributes: seq<Attribute>, children: seq<Node>)
    | Text(value: string, cdata: bool)
    | Comment(value: string)
    | Unknown(value: string)
    | Declaration(version: string, encoding: string, standalone: string)

  datatype Kind = ElementKind | CDataKind | CommentKind | UnknownKind | DeclarationKind

  datatype Error =
    | NoError
    | ParsingElement
    | FailedToReadElementName
    | ReadingElementValue
    | ReadingAttributes
    | ParsingEmpty
    | ReadingEndTag
    | ParsingUnknown
    | ParsingComment
    | ParsingDeclaration
    | DocumentEmpty
    | ParsingCData

  /** The first error of a parse is kept. */
  function SetError(err: Error, e: Error): Error {
    if err == NoError then e else err
  }

  datatype Parsed<T> = Parsed(p: Ptr, value: T, err: Error)

  const CDATA_START: string := "<![CDATA["
  const CDATA_END: string := "]]>"
  const COMMENT_START: string := "<!--"
  const COMMENT_END: string := "-->"

  predicate IsBlank(s: string) {
    forall c :: c in s ==> IsSpace(c)
  }

  predicate HasAttribute(attributes: seq<Attribute>, name: string) {
    exists k :: 0 <= k < |attributes| && attributes[k].name == name
  }

  /** What the markup at s is; s starts with '<'. */
  function Identify(s: string): Kind
    requires s != ""
  {
    if StringEqual(s, "<?xml", true) then DeclarationKind
    else if StringEqual(s, COMMENT_START, false) then CommentKind
    else if StringEqual(s, CDATA_START, false) then CDataKind
    else if StringEqual(s, "<!", false) then UnknownKind
    else if |s| > 1 && (IsAlpha(s[1]) || s[1] == '_') then ElementKind
    else UnknownKind
  }

  // ---------- Leaves ----------

  function ParseComment(s: string, err: Error): (r: Parsed<Node>)
    ensures r.p.At? ==> |r.p.s| < |s|
  {
    var p := SkipWhiteSpace(At(s));
    if p.Null? || !StringEqual(p.s, COMMENT_START, false) then Parsed(Null, Comment(""), SetError(err, ParsingComment))
    else
      MatchesTagPrefix(p.s, COMMENT_START);
      var (value, rest) := Verbatim(p.s[|COMMENT_START|..], COMMENT_END);
      MatchesTagPrefix(rest, COMMENT_END);
      Parsed(At(if rest != "" then rest[|COMMENT_END|..] else rest), Comment(value), err)
  }

  function ParseUnknown(s: string, err: Error): (r: Parsed<Node>)
    ensures r.p.At? ==> |r.p.s| < |s|
  {
    var p := SkipWhiteSpace(At(s));
    if !Live(p) || p.s[0] != '<' then Parsed(Null, Unknown(""), SetError(err, ParsingUnknown))
    else
      var (value, rest) := SplitAt(p.s[1..], '>');
      Parsed(At(rest), Unknown(value), err)
  }

  /**
    CDATA, or else character data up to the next markup, which is not consumed. Character data gives
    null if no markup follows or nothing follows its '<'.
   */
  function ParseText(s: string, cdata: bool, condense: bool, err: Error): (r: Parsed<Node>)
    ensures r.p.At? ==> |r.p.s| <= |s|
    ensures r.p.At? && (cdata || (s != "" && s[0] != '<')) ==> |r.p.s| < |s|
    ensures r.value.Text?
  {
    if cdata || StringEqual(s, CDATA_START, false) then
      if !StringEqual(s, CDATA_START, false) then Parsed(Null, Text("", true), SetError(err, ParsingCData))
      else
        MatchesTagPrefix(s, CDATA_START);
        var (value, rest) := Verbatim(s[|CDATA_START|..], CDATA_END);
        Parsed(ReadText(rest, false, CDATA_END).0, Text(value, true), err)
    else
      var (p, text) := TextUpTo(s, condense, "<");
      if Live(p) then
        MatchesTagPrefix(p.s, "<");
        Parsed(if |p.s| > 1 then p else Null, Text(text, false), err)
      else Parsed(Null, Text(text, false), err)
  }

  // ---------- Attributes ----------

  predicate EndsBareValue(c: char) {
    IsSpace(c) || c == '/' || c == '>'
  }

  predicate StopsBareValue(c: char) {
    EndsBareValue(c) || c == '\'' || c == '\"'
  }

  /** An attribute value without quotes; a quote inside it is an error. */
  function ParseBareValue(s: string, name: string, err: Error): (r: Parsed<Attribute>)
    ensures r.p.At? ==> |r.p.s| <= |s|
  {
    var n := Span(s, StopsBareValue);
    if n < |s| && !EndsBareValue(s[n]) then Parsed(Null, Attribute(name, s[..n]), SetError(err, ReadingAttributes))
    else Parsed(At(s[n..]), Attribute(name, s[..n]), err)
  }

  function ParseAttribute(s: string, err: Error): (r: Parsed<Attribute>)
    ensures r.p.At? ==> |r.p.s| < |s|
  {
    var start := SkipWhiteSpace(At(s));
    if !Live(start) then Parsed(Null, Attribute("", ""), err)
    else
      var (afterName, name) := ReadName(start);
      ParseEquals(afterName, name, err)
  }

  /** The rest of an attribute, behind its name. */
  function ParseEquals(afterName: Ptr, name: string, err: Error): (r: Parsed<Attribute>)
    ensures r.p.At? ==> afterName.At? && |r.p.s| < |afterName.s|
  {
    var equals := SkipWhiteSpace(afterName);
    if !Live(afterName) || !Live(equals) || equals.s[0] != '=' then
      Parsed(Null, Attribute(name, ""), SetError(err, ReadingAttributes))
    else ParseValue(equals.s[1..], name, err)
  }

  /** The value of an attribute, behind its equals sign. */
  function ParseValue(s: string, name: string, err: Error): (r: Parsed<Attribute>)
    ensures r.p.At? ==> |r.p.s| <= |s|
  {
    var p := SkipWhiteSpace(At(s));
    if !Live(p) then Parsed(Null, Attribute(name, ""), SetError(err, ReadingAttributes))
    else if p.s[0] == '\'' || p.s[0] == '\"' then
      var (q, value) := ReadText(p.s[1..], false, [p.s[0]]);
      Parsed(q, Attribute(name, value), err)
    else ParseBareValue(p.s, name, err)
  }

  // ---------- Declarations ----------

  /** The attributes of a declaration have no document, so their errors are not recorded. */
  function ParseDeclaration(s: string, err: Error): (r: Parsed<Node>)
    ensures r.p.At? ==> |r.p.s| < |s|
  {
    var p := SkipWhiteSpace(At(s));
    if !Live(p) || !StringEqual(p.s, "<?xml", true) then
      Parsed(Null, Declaration("", "", ""), SetError(err, ParsingDeclaration))
    else
      MatchesTagLength(p.s, "<?xml", true);
      ParseDeclarationFields(p.s[5..], Declaration("", "", ""), err)
  }

  lemma {:induction false} MatchesTagLength(s: string, tag: string, ignoreCase: bool)
    requires MatchesTag(s, tag, ignoreCase)
    ensures |tag| <= |s|
  {
    if tag == "" {
    } else {
      MatchesTagLength(s[1..], tag[1..], ignoreCase);
    }
  }

  function ParseDeclarationFields(s: string, d: Node, err: Error): (r: Parsed<Node>)
    requires d.Declaration?
    ensures r.p.At? ==> |r.p.s| < |s|
    decreases |s|
  {
    if s == "" then Parsed(Null, d, err)
    else if s[0] == '>' then Parsed(At(s[1..]), d, err)
    else
      var (p, e) := DeclarationField(DropSpaces(s), d);
      if p.At? then ParseDeclarationFields(p.s, e, err) else Parsed(Null, e, err)
  }

  predicate StopsField(c: char) {
    c == '>' || IsSpace(c)
  }

  /** One field of a declaration, or one word that is none. */
  function DeclarationField(t: string, d: Node): (r: (Ptr, Node))
    requires d.Declaration?
    ensures r.1.Declaration?
    ensures r.0.At? ==> |r.0.s| <= |t|
    ensures r.0.At? && t != "" && t[0] != '>' && !IsSpace(t[0]) ==> |r.0.s| < |t|
  {
    var a := ParseAttribute(t, NoError);
    var value := CStr(a.value.value);
    if StringEqual(t, "version", true) then (a.p, d.(version := value))
    else if StringEqual(t, "encoding", true) then (a.p, d.(encoding := value))
    else if StringEqual(t, "standalone", true) then (a.p, d.(standalone := value))
    else (At(t[Span(t, StopsField)..]), d)
  }

  // ---------- Elements ----------

  function ParseNode(kind: Kind, s: string, condense: bool, err: Error): (r: Parsed<Node>)
    ensures r.p.At? ==> |r.p.s| < |s|
    decreases |s|, 2
  {
    match kind
    case ElementKind => ParseElement(s, condense, err)
    case CDataKind => ParseText(s, true, condense, err)
    case CommentKind => ParseComment(s, err)
    case UnknownKind => ParseUnknown(s, err)
    case DeclarationKind => ParseDeclaration(s, err)
  }

  function ParseElement(s: string, condense: bool, err: Error): (r: Parsed<Node>)
    ensures r.p.At? ==> |r.p.s| < |s|
    decreases |s|, 1
  {
    var p := SkipWhiteSpace(At(s));
    if !Live(p) || p.s[0] != '<' then Parsed(Null, Element("", [], []), SetError(err, ParsingElement))
    else
      var (q, name) := ReadName(SkipWhiteSpace(At(p.s[1..])));
      if !Live(q) then Parsed(Null, Element(name, [], []), SetError(err, FailedToReadElementName))
      else ParseTag(q.s, name, [], condense, err)
  }

  /** The rest of a start tag, and what follows it up to the end tag. */
  function ParseTag(s: string, name: string, attributes: seq<Attribute>, condense: bool, err: Error): (r: Parsed<Node>)
    requires s != ""
    ensures r.p.At? ==> |r.p.s| < |s|
    decreases |s|, 1
  {
    var t := DropSpaces(s);
    var empty := Element(name, attributes, []);
    if t == "" then Parsed(Null, empty, SetError(err, ReadingAttributes))
    else if t[0] == '/' then
      if |t| > 1 && t[1] == '>' then Parsed(At(t[2..]), empty, err)
      else Parsed(Null, empty, SetError(err, ParsingEmpty))
    else if t[0] == '>' then
      var v := ReadValue(t[1..], condense, err);
      ParseEndTag(v.p, Element(name, attributes, v.value), v.err)
    else
      var a := ParseAttribute(t, err);
      if !Live(a.p) || HasAttribute(attributes, a.value.name) then
        Parsed(Null, empty, SetError(a.err, ParsingElement))
      else ParseTag(a.p.s, name, attributes + [a.value], condense, a.err)
  }

  function ParseEndTag(p: Ptr, node: Node, err: Error): (r: Parsed<Node>)
    requires node.Element?
    ensures r.p.At? ==> p.At? && |r.p.s| < |p.s|
  {
    var endTag := "</" + node.name;
    var failed := Parsed(Null, node, SetError(err, ReadingEndTag));
    if !Live(p) || !StringEqual(p.s, endTag, false) then failed
    else
      MatchesTagPrefix(p.s, endTag);
      var q := SkipWhiteSpace(At(p.s[|endTag|..]));
      if Live(q) && q.s[0] == '>' then Parsed(At(q.s[1..]), node, err) else failed
  }

  /** The children of an element, up to the next "</", which is not consumed. */
  function ReadValue(s: string, condense: bool, err: Error): (r: Parsed<seq<Node>>)
    ensures r.p.At? ==> |r.p.s| <= |s|
    decreases |s|, 4
  {
    var p := SkipWhiteSpace(At(s));
    if p.Null? then Parsed(Null, [], SetError(err, ReadingElementValue))
    else if p.s == "" then Parsed(p, [], err)
    else if StringEqual(p.s, "</", false) then Parsed(p, [], err)
    else
      var c := ReadChild(s, p.s, condense, err);
      MoreValues(s, c.p, c.value, condense, c.err)
  }

  /** The next child at t, or none if it is blank text; s is t with the white space in front of it. */
  function ReadChild(s: string, t: string, condense: bool, err: Error): (r: Parsed<seq<Node>>)
    requires t != "" && t == DropSpaces(s)
    ensures r.p.At? ==> |r.p.s| < |s|
    decreases |t|, 3
  {
    if t[0] != '<' then
      NotMarkup(s);
      var n := ParseText(if condense then t else s, false, condense, err);
      Parsed(n.p, if IsBlank(n.value.value) then [] else [n.value], n.err)
    else
      var n := ParseNode(Identify(t), t, condense, err);
      Parsed(n.p, [n.value], n.err)
  }

  lemma NotMarkup(s: string)
    requires DropSpaces(s) != "" && DropSpaces(s)[0] != '<'
    ensures s != "" && s[0] != '<'
  {
  }

  function MoreValues(s: string, p: Ptr, first: seq<Node>, condense: bool, err: Error): (r: Parsed<seq<Node>>)
    requires p.At? ==> |p.s| < |s|
    ensures r.p.At? ==> |r.p.s| < |s|
    decreases |s|, 0
  {
    if p.Null? then Parsed(Null, first, SetError(err, ReadingElementValue))
    else
      var rest := ReadValue(p.s, condense, err);
      Parsed(rest.p, first + rest.value, rest.err)
  }

  // ---------- Documents ----------

  function ParseTopLevel(p: Ptr, condense: bool, err: Error): (r: Parsed<seq<Node>>)
    decreases if p.At? then |p.s| + 1 else 0
  {
    if !Live(p) || p.s[0] != '<' then Parsed(p, [], err)
    else
      var n := ParseNode(Identify(p.s), p.s, condense, err);
      var rest := ParseTopLevel(SkipWhiteSpace(n.p), condense, n.err);
      Parsed(rest.p, [n.value] + rest.value, rest.err)
  }

  /** A document in an encoding known to be a byte encoding; its error starts clear. */
  function ParseDocument(s: string, condense: bool): Parsed<seq<Node>> {
    if s == "" then Parsed(Null, [], DocumentEmpty)
    else
      var r := ParseTopLevel(SkipWhiteSpace(At(s)), condense, NoError);
      if r.value == [] then Parsed(Null, [], SetError(r.err, DocumentEmpty)) else r
  }

  // ---------- No attribute twice ----------

  ghost predicate DistinctNames(attributes: seq<Attribute>) {
    forall j, k :: 0 <= j < k < |attributes| ==> attributes[j].name != attributes[k].name
  }

  /** No element of the tree has two attributes of one name. */
  ghost predicate DistinctNode(n: Node)
    decreases n, 0
  {
    n.Element? ==> DistinctNames(n.attributes) && DistinctAll(n.children)
  }

  ghost predicate DistinctAll(nodes: seq<Node>)
    decreases nodes, 1
  {
    forall k :: 0 <= k < |nodes| ==> DistinctNode(nodes[k])
  }

  lemma {:induction false} ParseNodeDistinct(kind: Kind, s: string, condense: bool, err: Error)
    ensures DistinctNode(ParseNode(kind, s, condense, err).value)
    decreases |s|, 2
  {
    hide ParseElement, ParseText, ParseComment, ParseUnknown, ParseDeclaration;
    if kind == ElementKind {
      ParseElementDistinct(s, condense, err);
    } else {
      NoElement(kind, s, condense, err);
    }
  }

  lemma NoElement(kind: Kind, s: string, condense: bool, err: Error)
    requires kind != ElementKind
    ensures !ParseNode(kind, s, condense, err).value.Element?
  {
    DeclarationOnly(s, err);
  }

  lemma DeclarationOnly(s: string, err: Error)
    ensures ParseDeclaration(s, err).value.Declaration?
  {
    var p := SkipWhiteSpace(At(s));
    if Live(p) && StringEqual(p.s, "<?xml", true) {
      MatchesTagLength(p.s, "<?xml", true);
      FieldsOnly(p.s[5..], Declaration("", "", ""), err);
    }
  }

  lemma {:induction false} FieldsOnly(s: string, d: Node, err: Error)
    requires d.Declaration?
    ensures ParseDeclarationFields(s, d, err).value.Declaration?
    decreases |s|
  {
    if s == "" || s[0] == '>' {
    } else {
      var (p, e) := DeclarationField(DropSpaces(s), d);
      if p.At? {
        FieldsOnly(p.s, e, err);
      }
    }
  }

  lemma {:induction false} ParseElementDistinct(s: string, condense: bool, err: Error)
    ensures DistinctNode(ParseElement(s, condense, err).value)
    decreases |s|, 1
  {
    hide ParseTag, ReadName;
    var p := SkipWhiteSpace(At(s));
    if Live(p) && p.s[0] == '<' {
      var (q, name) := ReadName(SkipWhiteSpace(At(p.s[1..])));
      if Live(q) {
        ParseTagDistinct(q.s, name, [], condense, err);
      }
    }
  }

  lemma {:induction false} ParseTagDistinct(s: string, name: string, attributes: seq<Attribute>, condense: bool, err: Error)
    requires s != "" && DistinctNames(attributes)
    ensures DistinctNode(ParseTag(s, name, attributes, condense, err).value)
    decreases |s|, 1
  {
    hide ReadValue, ParseAttribute;
    var t := DropSpaces(s);
    if t == "" || t[0] == '/' {
    } else if t[0] == '>' {
      ReadValueDistinct(t[1..], condense, err);
    } else {
      var a := ParseAttribute(t, err);
      if Live(a.p) && !HasAttribute(attributes, a.value.name) {
        ParseTagDistinct(a.p.s, name, attributes + [a.value], condense, a.err);
      }
    }
  }

  lemma {:induction false} ReadValueDistinct(s: string, condense: bool, err: Error)
    ensures DistinctAll(ReadValue(s, condense, err).value)
    decreases |s|, 4
  {
    hide ReadChild, DistinctNode;
    var p := SkipWhiteSpace(At(s));
    if p.Null? || p.s == "" || StringEqual(p.s, "</", false) {
    } else {
      var c := ReadChild(s, p.s, condense, err);
      ReadChildDistinct(s, p.s, condense, err);
      if c.p.At? {
        ReadValueDistinct(c.p.s, condense, c.err);
      }
    }
  }

  lemma {:induction false} ReadChildDistinct(s: string, t: string, condense: bool, err: Error)
    requires t != "" && t == DropSpaces(s)
    ensures DistinctAll(ReadChild(s, t, condense, err).value)
    decreases |t|, 3
  {
    hide ParseNode, ParseText, Identify;
    if t[0] == '<' {
      ParseNodeDistinct(Identify(t), t, condense, err);
    } else {
      NotMarkup(s);
      TextOnly(if condense then t else s, condense, err);
    }
  }

  lemma TextOnly(s: string, condense: bool, err: Error)
    requires s != ""
    ensures ParseText(s, false, condense, err).value.Text?
  {
  }

  lemma {:induction false} ParseTopLevelDistinct(p: Ptr, condense: bool, err: Error)
    ensures DistinctAll(ParseTopLevel(p, condense, err).value)
    decreases if p.At? then |p.s| + 1 else 0
  {
    hide ParseNode, Identify, DistinctNode;
    if Live(p) && p.s[0] == '<' {
      var n := ParseNode(Identify(p.s), p.s, condense, err);
      ParseNodeDistinct(Identify(p.s), p.s, condense, err);
      ParseTopLevelDistinct(SkipWhiteSpace(n.p), condense, n.err);
    }
  }

  /** Whatever the text, no element of the parsed document has two attributes of one name. */
  lemma ParseDocumentDistinct(s: string, condense: bool)
    ensures DistinctAll(ParseDocument(s, condense).value)
  {
    hide ParseTopLevel, DistinctNode;
    ParseTopLevelDistinct(SkipWhiteSpace(At(s)), condense, NoError);
  }
}
