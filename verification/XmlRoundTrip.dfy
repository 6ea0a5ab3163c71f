/**
  Printing a tree and parsing the text gives the tree back, for every style whose indentation and line break are white
  space: what the printer writes is one of the layouts that the parser reads.
 */
module XmlRoundTrip {
  import opened Concat
  import opened XmlLex
  import opened XmlParse
  import opened XmlPrint
  import opened XmlReading
  import opened XmlSyntax
  import T = XmlTextRoundTrip

  // ---------- The trees ----------

  predicate IsPlainText(n: Node) {
    n.Text? && !n.cdata
  }

  ghost predicate ValidAttributes(attributes: seq<Attribute>) {
    && (forall k :: 0 <= k < |attributes| ==> LegalName(attributes[k].name) && T.NoReference(attributes[k].value))
    && (forall j, k :: 0 <= j < k < |attributes| ==> attributes[j].name != attributes[k].name)
  }

  /** A field of a declaration is printed as it is, in double quotes. */
  predicate ValidField(value: string) {
    '\"' !in value && '&' !in value && '\0' !in value
  }

  /** Spaces at the ends of a text and several in a row are lost where white space is condensed. */
  ghost predicate ValidText(value: string, condense: bool) {
    T.NoReference(value) && !White(value) && (condense ==> T.Stable(value))
  }

  ghost predicate ValidNode(n: Node, condense: bool)
    decreases n, 0
  {
    match n
    case Element(name, attributes, children) =>
      LegalName(name) && ValidAttributes(attributes) && ValidNodes(children, condense)
    case Text(value, cdata) => if cdata then '\0' !in value && Absent(value, "]]>") else ValidText(value, condense)
    case Comment(value) => '\0' !in value && Absent(value, "-->")
    case Unknown(value) => '\0' !in value && LegalOther(value)
    case Declaration(version, encoding, standalone) =>
      ValidField(version) && ValidField(encoding) && ValidField(standalone)
  }

  /** Valid nodes, no two plain texts side by side. */
  ghost predicate ValidNodes(nodes: seq<Node>, condense: bool)
    decreases nodes, 1
  {
    nodes == [] ||
    (ValidNode(nodes[0], condense) && ValidNodes(nodes[1..], condense)
     && !(|nodes| > 1 && IsPlainText(nodes[0]) && IsPlainText(nodes[1])))
  }

  /** Where white space is kept, none may be printed that is not part of a text. */
  predicate WhiteStyle(style: Style, condense: bool) {
    White(style.indent) && White(style.lineBreak) && (!condense ==> style == Style("", ""))
  }

  lemma {:induction false} IndentIsWhite(style: Style, depth: nat, condense: bool)
    requires WhiteStyle(style, condense)
    ensures White(Indent(style, depth)) && (!condense ==> Indent(style, depth) == "")
  {
    if depth == 0 {
    } else {
      IndentIsWhite(style, depth - 1, condense);
    }
  }

  // ---------- Encoded text as pieces ----------

  function CodePiece(c: char): Piece {
    if c == '&' then Entity("amp")
    else if c == '<' then Entity("lt")
    else if c == '>' then Entity("gt")
    else if c == '\"' then Entity("quot")
    else if c == '\'' then Entity("apos")
    else if c as int < 32 then Hex([HexDigit(c as int / 16), HexDigit(c as int % 16)])
    else Plain(c)
  }

  function CodePieces(v: string): seq<Piece> {
    if v == "" then [] else [CodePiece(v[0])] + CodePieces(v[1..])
  }

  lemma HexDigitIsDigit(d: nat)
    requires d < 16
    ensures IsDigit(HexDigit(d), 16) && DigitValue(HexDigit(d)) == d
  {
  }

  lemma TwoDigits(h: char, l: char)
    ensures Number([h, l], 16) == 16 * DigitValue(h) + DigitValue(l)
  {
    assert [h, l][..1] == [h] && [h][..0] == "";
    assert Number([h], 16) == DigitValue(h);
  }

  lemma CodeIsPiece(c: char, stop: char)
    requires stop in {'<', '\'', '\"'}
    ensures LegalPiece(CodePiece(c), stop) && PieceChar(CodePiece(c)) == c && PieceText(CodePiece(c)) == EncodeChar(c)
    ensures IsWhitePiece(CodePiece(c)) <==> c == ' '
  {
    if c as int < 32 {
      var h, l := HexDigit(c as int / 16), HexDigit(c as int % 16);
      HexDigitIsDigit(c as int / 16);
      HexDigitIsDigit(c as int % 16);
      TwoDigits(h, l);
      assert "&#x" + [h, l] + ";" == ['&', '#', 'x', h, l, ';'];
    }
  }

  lemma {:induction false} CodesArePieces(v: string, stop: char, rest: string)
    requires T.NoReference(v) && stop in {'<', '\'', '\"'}
    ensures LegalPieces(CodePieces(v), stop) && Kept(CodePieces(v)) == v
    ensures Encode(v) + rest == WritePieces(CodePieces(v), rest)
  {
    hide LegalPiece, PieceText, PieceChar, EncodeChar, CodePiece, Encode, T.NoReference;
    if v == "" {
      EncodeNothing(rest);
    } else {
      T.EncodeStep(v);
      CodeIsPiece(v[0], stop);
      CodesArePieces(v[1..], stop, rest);
      Regroup(EncodeChar(v[0]), Encode(v[1..]), rest);
      assert v == [v[0]] + v[1..];
      FirstOfCodes(v);
    }
  }

  lemma EncodeNothing(rest: string)
    ensures Encode("") + rest == rest
  {
  }

  lemma FirstOfCodes(v: string)
    requires v != ""
    ensures CodePieces(v) != [] && CodePieces(v)[0] == CodePiece(v[0]) && CodePieces(v)[1..] == CodePieces(v[1..])
  {
  }

  function Plains(w: string): seq<Piece> {
    if w == "" then [] else [Plain(w[0])] + Plains(w[1..])
  }

  lemma FirstOfPlains(w: string)
    requires w != ""
    ensures Plains(w) != [] && Plains(w)[0] == Plain(w[0]) && Plains(w)[1..] == Plains(w[1..])
  {
  }

  lemma {:induction false} PlainsWrite(w: string, rest: string)
    ensures WritePieces(Plains(w), rest) == w + rest
  {
    if w == "" {
      assert w + rest == rest;
    } else {
      PlainsWrite(w[1..], rest);
      FirstOfPlains(w);
      hide Plains;
      assert w == [w[0]] + w[1..];
      Regroup([w[0]], w[1..], rest);
    }
  }

  lemma {:induction false} WhitePlains(w: string)
    requires White(w)
    ensures LegalPieces(Plains(w), '<') && TrimWhite(Plains(w)) == [] && forall spaced :: Condensed(Plains(w), spaced) == ""
  {
    if w == "" {
    } else {
      assert w[0] in w;
      WhitePlains(w[1..]);
      assert Plains(w)[1..] == Plains(w[1..]);
    }
  }

  lemma {:induction false} WriteTwo(a: seq<Piece>, b: seq<Piece>, rest: string)
    ensures WritePieces(a + b, rest) == WritePieces(a, WritePieces(b, rest))
  {
    if a == [] {
      assert a + b == b;
    } else {
      assert (a + b)[1..] == a[1..] + b;
      WriteTwo(a[1..], b, rest);
    }
  }

  // ---------- What a run of character data means ----------

  lemma {:induction false} TrimBehind(w: string, ps: seq<Piece>)
    requires White(w)
    ensures TrimWhite(Plains(w) + ps) == TrimWhite(ps)
  {
    if w == "" {
      assert Plains(w) + ps == ps;
    } else {
      assert w[0] in w;
      assert (Plains(w) + ps)[1..] == Plains(w[1..]) + ps;
      TrimBehind(w[1..], ps);
    }
  }

  lemma {:induction false} CondensedCodes(v: string, w: string, spaced: bool)
    requires T.Condensed(v, spaced) && White(w)
    ensures Condensed(CodePieces(v) + Plains(w), spaced) == (if spaced then " " else "") + v
  {
    if v == "" {
      WhitePlains(w);
      assert CodePieces(v) + Plains(w) == Plains(w);
    } else {
      RestCondensed(v, spaced);
      CondensedCodes(v[1..], w, v[0] == ' ');
      OneCondensed(v, w, spaced);
    }
  }

  lemma OneCondensed(v: string, w: string, spaced: bool)
    requires v != "" && (spaced ==> v[0] != ' ')
    requires Condensed(CodePieces(v[1..]) + Plains(w), v[0] == ' ') == (if v[0] == ' ' then " " else "") + v[1..]
    ensures Condensed(CodePieces(v) + Plains(w), spaced) == (if spaced then " " else "") + v
  {
    hide CodePiece, PieceChar, IsWhitePiece, CodePieces, Plains, Condensed;
    CodeIsPiece(v[0], '<');
    FirstOfCodes(v);
    var ps := CodePieces(v) + Plains(w);
    assert ps[0] == CodePiece(v[0]) && ps[1..] == CodePieces(v[1..]) + Plains(w);
    assert v == [v[0]] + v[1..];
    CondensedStep(ps, spaced);
  }

  lemma CondensedStep(ps: seq<Piece>, spaced: bool)
    requires ps != []
    ensures Condensed(ps, spaced)
         == if IsWhitePiece(ps[0]) then Condensed(ps[1..], true)
            else (if spaced then " " else "") + [PieceChar(ps[0])] + Condensed(ps[1..], false)
  {
  }

  lemma RestCondensed(v: string, spaced: bool)
    requires v != "" && T.Condensed(v, spaced)
    ensures T.Condensed(v[1..], v[0] == ' ')
  {
    forall i | 0 <= i < |v[1..]| - 1
      ensures !(v[1..][i] == ' ' && v[1..][i + 1] == ' ')
    {
      assert v[1..][i] == v[i + 1] && v[1..][i + 1] == v[i + 2];
    }
  }

  /** The run stands for the nodes, whatever white space is put behind it. */
  ghost predicate RunMeans(run: seq<Piece>, t: seq<Node>, condense: bool) {
    LegalPieces(run, '<') && forall w :: White(w) && (condense || w == "") ==> TextMeant(run + Plains(w), condense) == t
  }

  lemma NoText(w: string, condense: bool)
    requires White(w) && (condense || w == "")
    ensures RunMeans(Plains(w), [], condense)
  {
    WhitePlains(w);
    forall w' | White(w') && (condense || w' == "")
      ensures TextMeant(Plains(w) + Plains(w'), condense) == []
    {
      TrimBehind(w, Plains(w'));
      WhitePlains(w');
    }
  }

  lemma {:induction false} PlainsConcat(a: string, b: string)
    ensures Plains(a + b) == Plains(a) + Plains(b)
  {
    if a == "" {
      assert a + b == b;
    } else {
      assert (a + b)[1..] == a[1..] + b;
      PlainsConcat(a[1..], b);
    }
  }

  lemma WhiteConcat(a: string, b: string)
    requires White(a) && White(b)
    ensures White(a + b)
  {
  }

  lemma MoreWhite(run: seq<Piece>, t: seq<Node>, w: string, condense: bool)
    requires RunMeans(run, t, condense) && White(w) && (condense || w == "")
    ensures RunMeans(run + Plains(w), t, condense) && TextMeant(run + Plains(w), condense) == t
  {
    hide TextMeant, LegalPiece;
    WhitePlains(w);
    forall w' | White(w') && (condense || w' == "")
      ensures TextMeant(run + Plains(w) + Plains(w'), condense) == t
    {
      PlainsConcat(w, w');
      WhiteConcat(w, w');
      assert run + Plains(w) + Plains(w') == run + Plains(w + w');
    }
  }

  lemma CondensedRun(w: string, v: string, w': string)
    requires ValidText(v, true) && White(w) && White(w')
    ensures TextMeant(Plains(w) + CodePieces(v) + Plains(w'), true) == [Text(v, false)]
  {
    hide LegalPiece, T.NoReference, T.Stable, T.Condensed, Kept, Condensed, TrimWhite;
    assert Plains(w) + CodePieces(v) + Plains(w') == Plains(w) + (CodePieces(v) + Plains(w'));
    TrimBehind(w, CodePieces(v) + Plains(w'));
    StartsStable(v, w');
    CondensedCodes(v, w', false);
    assert "" + v == v;
  }

  /** A text with white space in front of it. */
  lemma TextRun(w: string, v: string, condense: bool)
    requires ValidText(v, condense) && White(w) && (condense || w == "")
    ensures RunMeans(Plains(w) + CodePieces(v), [Text(v, false)], condense)
  {
    hide LegalPiece, T.NoReference, T.Stable, T.Condensed, Kept, Condensed, TrimWhite;
    WhitePlains(w);
    CodesArePieces(v, '<', "");
    forall w' | White(w') && (condense || w' == "")
      ensures TextMeant(Plains(w) + CodePieces(v) + Plains(w'), condense) == [Text(v, false)]
    {
      if condense {
        CondensedRun(w, v, w');
      } else {
        assert Plains(w) + CodePieces(v) + Plains(w') == CodePieces(v);
      }
    }
  }

  lemma StartsStable(v: string, w: string)
    requires T.Stable(v) && !White(v)
    ensures TrimWhite(CodePieces(v) + Plains(w)) == CodePieces(v) + Plains(w) && T.Condensed(v, false)
  {
    FirstOfCodes(v);
    CodeIsPiece(v[0], '<');
  }

  // ---------- The layout of the printer ----------

  function QuoteFor(value: string): char {
    if '\"' in value then '\'' else '\"'
  }

  function LayAttr(a: Attribute): Attr {
    Quoted(" ", a.name, "", "", QuoteFor(a.value), CodePieces(a.value))
  }

  function LayAttrs(attributes: seq<Attribute>): (r: seq<Attr>)
    ensures |r| == |attributes| && forall k :: 0 <= k < |r| ==> r[k] == LayAttr(attributes[k])
  {
    if attributes == [] then [] else [LayAttr(attributes[0])] + LayAttrs(attributes[1..])
  }

  function LayField(name: string, value: string): seq<Attr> {
    if value == "" then [] else [Quoted(" ", name, "", "", '\"', Plains(value))]
  }

  function LayFields(version: string, encoding: string, standalone: string): seq<Attr> {
    LayField("version", version) + LayField("encoding", encoding) + LayField("standalone", standalone)
  }

  function Lay(n: Node, depth: nat, style: Style): Markup
    decreases n, 0
  {
    match n
    case Element(name, attributes, children) =>
      if children == [] then Tag(name, LayAttrs(attributes), " ", Empty)
      else if IsSimple(children) then Tag(name, LayAttrs(attributes), "", Full([], CodePieces(children[0].value), ""))
      else
        var (items, last) := LayAll(children, depth + 1, style, Plains(style.lineBreak));
        Tag(name, LayAttrs(attributes), "", Full(items, last + Plains(Indent(style, depth)), ""))
    case Text(value, _) => CData(value)
    case Comment(value) => Remark(value)
    case Unknown(value) => Other(value)
    case Declaration(version, encoding, standalone) => Prolog(LayFields(version, encoding, standalone), " ")
  }

  /** The children line by line; run is the character data since the last markup. */
  function LayAll(nodes: seq<Node>, depth: nat, style: Style, run: seq<Piece>): (seq<Item>, seq<Piece>)
    decreases nodes, 1
  {
    if nodes == [] then ([], run)
    else if IsPlainText(nodes[0]) then
      LayAll(nodes[1..], depth, style,
             run + Plains(Indent(style, depth)) + CodePieces(nodes[0].value) + Plains(style.lineBreak))
    else
      var (items, last) := LayAll(nodes[1..], depth, style, Plains(style.lineBreak));
      ([Item(run + Plains(Indent(style, depth)), Lay(nodes[0], depth, style))] + items, last)
  }

  // ---------- The printed text is that layout ----------

  lemma {:induction false} EncodeName(name: string)
    requires forall c :: c in name ==> ContinuesName(c)
    ensures Encode(name) == name
  {
    if name == "" {
    } else {
      assert name[0] in name;
      assert !(HEX_REFERENCE <= name);
      EncodeName(name[1..]);
      assert name == [name[0]] + name[1..];
    }
  }

  lemma AttributeText(a: Attribute, rest: string)
    requires LegalName(a.name) && T.NoReference(a.value)
    ensures " " + PrintAttribute(a) + rest == WriteAttr(LayAttr(a), rest)
    ensures LegalAttr(LayAttr(a)) && AttrMeant(LayAttr(a)) == a
  {
    hide Encode, T.NoReference, LegalPieces, Kept, CodePieces, WritePieces;
    EncodeName(a.name);
    var q := QuoteFor(a.value);
    CodesArePieces(a.value, q, [q] + rest);
    var name, value := a.name, Encode(a.value);
    assert PrintAttribute(a) == name + ['=', q] + value + [q];
    assert " " + (name + ['=', q] + value + [q]) + rest
        == " " + (name + ("" + ("=" + ("" + ([q] + (value + ([q] + rest)))))));
  }

  lemma {:induction false} AttributesText(attributes: seq<Attribute>, rest: string)
    requires forall k :: 0 <= k < |attributes| ==> LegalName(attributes[k].name) && T.NoReference(attributes[k].value)
    ensures PrintAttributes(attributes) + rest == WriteAttrs(LayAttrs(attributes), rest)
    ensures AttrsMeant(LayAttrs(attributes)) == attributes
  {
    hide PrintAttribute, LayAttr, WriteAttr, LegalAttr, LegalName, T.NoReference;
    if attributes == [] {
      assert "" + rest == rest;
    } else {
      var a := attributes[0];
      var lay := LayAttrs(attributes);
      assert lay[0] == LayAttr(a) && lay[1..] == LayAttrs(attributes[1..]);
      AttributesText(attributes[1..], rest);
      AttributeText(a, PrintAttributes(attributes[1..]) + rest);
      FirstPrinted(attributes);
      Regroup(" " + PrintAttribute(a), PrintAttributes(attributes[1..]), rest);
    }
  }

  lemma FirstPrinted(attributes: seq<Attribute>)
    requires attributes != [] && forall k :: 0 <= k < |attributes| ==> LegalName(attributes[k].name)
    ensures PrintAttributes(attributes) == " " + PrintAttribute(attributes[0]) + PrintAttributes(attributes[1..])
  {
  }

  lemma LayAttrsLegal(attributes: seq<Attribute>)
    requires ValidAttributes(attributes)
    ensures LegalAttrs(LayAttrs(attributes))
  {
    hide LegalName, T.NoReference, LegalAttr;
    var lay := LayAttrs(attributes);
    forall k | 0 <= k < |lay|
      ensures LegalAttr(lay[k])
    {
      AttributeText(attributes[k], "");
    }
  }

  lemma {:induction false} RawPieces(value: string)
    requires ValidField(value)
    ensures LegalPieces(Plains(value), '\"') && Kept(Plains(value)) == value
  {
    if value == "" {
    } else {
      assert value[0] in value;
      RawPieces(value[1..]);
      FirstOfPlains(value);
      assert value == [value[0]] + value[1..];
    }
  }

  lemma FieldText(name: string, value: string, rest: string)
    requires name in {"version", "encoding", "standalone"} && ValidField(value)
    ensures " " + (Field(name, value) + rest) == WriteAttrs(LayField(name, value), " " + rest)
  {
    if value == "" {
      assert "" + rest == rest;
    } else {
      PlainsWrite(value, "\"" + (" " + rest));
      var field := LayField(name, value);
      assert field[0] == Quoted(" ", name, "", "", '\"', Plains(value)) && field[1..] == [];
      hide Plains, WritePieces;
      assert WriteAttrs(field[1..], " " + rest) == " " + rest;
      assert name + "=\"" + value + "\" " + rest
          == name + ("" + ("=" + ("" + ("\"" + (value + ("\"" + (" " + rest)))))));
    }
  }

  lemma FieldLaid(name: string, value: string)
    requires name in {"version", "encoding", "standalone"} && ValidField(value)
    ensures LegalFields(LayField(name, value)) && FieldValue(LayField(name, value), name) == value
    ensures forall other :: Names(LayField(name, value), other) <==> value != "" && other == name
  {
    RawPieces(value);
    FieldNames(name);
    hide LegalName, Plains, LegalPieces, Kept;
    if value != "" {
      assert LayField(name, value)[0].name == name;
    }
  }

  lemma FieldNames(name: string)
    requires name in {"version", "encoding", "standalone"}
    ensures LegalName(name)
  {
  }

  lemma {:induction false} WriteMoreAttrs(a: seq<Attr>, b: seq<Attr>, rest: string)
    ensures WriteAttrs(a + b, rest) == WriteAttrs(a, WriteAttrs(b, rest))
  {
    if a == [] {
      assert a + b == b;
    } else {
      assert (a + b)[1..] == a[1..] + b;
      WriteMoreAttrs(a[1..], b, rest);
    }
  }

  /** Two lists of fields with no name in common, one behind the other. */
  lemma {:induction false} FieldsOfTwo(a: seq<Attr>, b: seq<Attr>)
    requires LegalFields(a) && LegalFields(b)
    requires forall name :: !(Names(a, name) && Names(b, name))
    ensures LegalFields(a + b)
    ensures forall name :: FieldValue(a + b, name) == if Names(a, name) then FieldValue(a, name) else FieldValue(b, name)
    decreases |a|
  {
    hide LegalAttr, Kept, AttrMeant;
    if a == [] {
      assert a + b == b;
    } else {
      forall name
        ensures !(Names(a[1..], name) && Names(b, name))
      {
        NamesStep(a, name);
      }
      FieldsOfTwo(a[1..], b);
      assert (a + b)[1..] == a[1..] + b;
      assert Names(a, a[0].name);
      assert forall k :: 0 <= k < |b| ==> b[k].name != a[0].name;
      forall name
        ensures FieldValue(a + b, name) == if Names(a, name) then FieldValue(a, name) else FieldValue(b, name)
      {
        NamesStep(a, name);
      }
    }
  }

  lemma FieldsText(version: string, encoding: string, standalone: string, end: string)
    requires ValidField(version) && ValidField(encoding) && ValidField(standalone)
    ensures " " + (Field("version", version) + (Field("encoding", encoding) + (Field("standalone", standalone) + end)))
         == WriteAttrs(LayFields(version, encoding, standalone), " " + end)
  {
    hide Field, ValidField, LayField, WriteAttrs;
    var f1, f2, f3 := LayField("version", version), LayField("encoding", encoding), LayField("standalone", standalone);
    var p2, p3 := Field("encoding", encoding), Field("standalone", standalone);
    FieldText("version", version, p2 + (p3 + end));
    FieldText("encoding", encoding, p3 + end);
    FieldText("standalone", standalone, end);
    WriteMoreAttrs(f1 + f2, f3, " " + end);
    WriteMoreAttrs(f1, f2, WriteAttrs(f3, " " + end));
  }

  lemma JoinDeclaration(p1: string, p2: string, p3: string, rest: string)
    ensures "<?xml " + p1 + p2 + p3 + "?>" + rest == "<?xml" + (" " + (p1 + (p2 + (p3 + ("?>" + rest)))))
  {
    assert "<?xml " == "<?xml" + " ";
  }

  lemma DeclarationText(n: Node, depth: nat, style: Style, rest: string)
    requires n.Declaration? && ValidNode(n, true)
    ensures PrintBody(n, depth, style) + rest == WriteMarkup(Lay(n, depth, style), rest)
    ensures LegalMarkup(Lay(n, depth, style)) && forall condense :: Meant(Lay(n, depth, style), condense) == n
  {
    hide WriteAttrs, LegalFields, FieldValue, LayFields, Field;
    FieldsText(n.version, n.encoding, n.standalone, "?>" + rest);
    JoinDeclaration(Field("version", n.version), Field("encoding", n.encoding), Field("standalone", n.standalone), rest);
    ThreeFields(n.version, n.encoding, n.standalone);
  }

  lemma ThreeFields(version: string, encoding: string, standalone: string)
    requires ValidField(version) && ValidField(encoding) && ValidField(standalone)
    ensures var fields := LayFields(version, encoding, standalone);
            && LegalFields(fields)
            && FieldValue(fields, "version") == version && FieldValue(fields, "encoding") == encoding
            && FieldValue(fields, "standalone") == standalone
  {
    hide LayField, LegalFields, FieldValue, Names, ValidField;
    var f1, f2, f3 := LayField("version", version), LayField("encoding", encoding), LayField("standalone", standalone);
    FieldLaid("version", version);
    FieldLaid("encoding", encoding);
    FieldLaid("standalone", standalone);
    FieldsOfTwo(f1, f2);
    TwoNames(f1, f2);
    FieldsOfTwo(f1 + f2, f3);
    NoFields(f1);
    NoFields(f2);
    NoFields(f3);
  }

  lemma TwoNames(a: seq<Attr>, b: seq<Attr>)
    ensures forall name :: Names(a + b, name) <==> Names(a, name) || Names(b, name)
  {
    forall name
      ensures Names(a + b, name) <==> Names(a, name) || Names(b, name)
    {
      assert forall k :: 0 <= k < |a| ==> (a + b)[k] == a[k];
      assert forall k :: 0 <= k < |b| ==> (a + b)[|a| + k] == b[k];
    }
  }

  lemma NameIsC(name: string)
    requires LegalName(name)
    ensures CStr(name) == name
  {
    assert '\0' !in name by {
      assert forall c :: c in name ==> ContinuesName(c);
    }
    WholeCStr(name);
  }

  lemma RegroupThree(a: string, b: string, c: string, rest: string)
    ensures a + b + c + rest == a + (b + (c + rest))
  {
  }

  lemma LeafText(n: Node, depth: nat, style: Style, rest: string, condense: bool)
    requires ValidNode(n, condense) && !IsPlainText(n) && !n.Element?
    ensures PrintBody(n, depth, style) + rest == WriteMarkup(Lay(n, depth, style), rest)
    ensures LegalMarkup(Lay(n, depth, style)) && Meant(Lay(n, depth, style), condense) == n
  {
    hide CStr;
    match n
    case Text(value, _) =>
      WholeCStr(value);
      RegroupThree(CDATA_START, value, CDATA_END, rest);
    case Comment(value) =>
      WholeCStr(value);
      RegroupThree(COMMENT_START, value, COMMENT_END, rest);
    case Unknown(value) =>
      WholeCStr(value);
      RegroupThree("<", value, ">", rest);
    case Declaration(_, _, _) =>
      DeclarationText(n, depth, style, rest);
  }

  /** The printed text of a node is the text of its layout. */
  lemma {:induction false} BodyText(n: Node, depth: nat, style: Style, rest: string, condense: bool)
    requires ValidNode(n, condense) && !IsPlainText(n)
    ensures PrintBody(n, depth, style) + rest == WriteMarkup(Lay(n, depth, style), rest)
    decreases n, 0
  {
    if n.Element? {
      hide WriteAttrs, LayAttrs, PrintAttributes, WritePieces, CodePieces, Plains, CStr, T.NoReference;
      NameIsC(n.name);
      var name, attributes := n.name, PrintAttributes(n.attributes);
      var end := WriteEnd(name, "", rest);
      EndText(name, rest);
      if n.children == [] {
        StartText(name, attributes, " />", rest);
        AttributesText(n.attributes, " />" + rest);
        assert " />" + rest == " " + ("/>" + rest);
      } else if IsSimple(n.children) {
        var v := n.children[0].value;
        SimpleText(n.children, condense);
        CodesArePieces(v, '<', end);
        TagText(name, attributes, Encode(v), "</" + name + ">", rest);
        AttributesText(n.attributes, "" + (">" + (Encode(v) + end)));
        assert WriteItems([], WritePieces(CodePieces(v), end)) == WritePieces(CodePieces(v), end);
      } else {
        var lines := style.lineBreak + PrintNodes(n.children, depth + 1, style) + Indent(style, depth);
        var (items, last) := LayAll(n.children, depth + 1, style, Plains(style.lineBreak));
        var tail := Indent(style, depth) + end;
        AllText(n.children, depth + 1, style, Plains(style.lineBreak), tail, condense);
        PlainsWrite(style.lineBreak, PrintNodes(n.children, depth + 1, style) + tail);
        WriteTwo(last, Plains(Indent(style, depth)), end);
        PlainsWrite(Indent(style, depth), end);
        TagText(name, attributes, lines, "</" + name + ">", rest);
        LinesText(style.lineBreak, PrintNodes(n.children, depth + 1, style), Indent(style, depth), end);
        AttributesText(n.attributes, "" + (">" + (lines + end)));
        LinesStart("<" + name + attributes, style.lineBreak, PrintNodes(n.children, depth + 1, style), Indent(style, depth),
                   "</" + name + ">");
      }
    } else {
      LeafText(n, depth, style, rest, condense);
    }
  }

  lemma SimpleText(children: seq<Node>, condense: bool)
    requires ValidNodes(children, condense) && IsSimple(children)
    ensures ValidText(children[0].value, condense)
  {
    assert ValidNode(children[0], condense);
  }

  lemma EndText(name: string, rest: string)
    ensures "</" + name + ">" + rest == WriteEnd(name, "", rest)
  {
    assert "" + (">" + rest) == ">" + rest;
  }

  lemma StartText(name: string, attributes: string, a: string, rest: string)
    ensures "<" + name + attributes + a + rest == "<" + (name + (attributes + (a + rest)))
  {
  }

  lemma TagText(name: string, attributes: string, content: string, end: string, rest: string)
    ensures "<" + name + attributes + ">" + content + end + rest
         == "<" + (name + (attributes + ("" + (">" + (content + (end + rest))))))
  {
    assert "" + (">" + (content + (end + rest))) == ">" + (content + (end + rest));
  }

  lemma LinesText(a: string, b: string, c: string, end: string)
    ensures a + b + c + end == a + (b + (c + end))
  {
  }

  lemma LinesStart(start: string, a: string, b: string, c: string, end: string)
    ensures start + ">" + a + b + c + end == start + ">" + (a + b + c) + end
  {
  }

  lemma {:induction false} AllText(nodes: seq<Node>, depth: nat, style: Style, run: seq<Piece>, rest: string,
                                   condense: bool)
    requires ValidNodes(nodes, condense)
    ensures var (items, last) := LayAll(nodes, depth, style, run);
            WriteItems(items, WritePieces(last, rest)) == WritePieces(run, PrintNodes(nodes, depth, style) + rest)
    decreases nodes, 1
  {
    hide PrintBody, Lay, WriteMarkup, WritePieces, CodePieces, Plains, ValidNode;
    if nodes == [] {
      assert "" + rest == rest;
    } else {
      var n, indent, more := nodes[0], Indent(style, depth), PrintNodes(nodes[1..], depth, style);
      var tail := style.lineBreak + (more + rest);
      LinesText(indent, PrintBody(n, depth, style), style.lineBreak, more + rest);
      assert PrintNodes(nodes, depth, style) + rest == indent + (PrintBody(n, depth, style) + tail) by {
        Regroup(indent + PrintBody(n, depth, style) + style.lineBreak, more, rest);
      }
      PlainsWrite(style.lineBreak, more + rest);
      if IsPlainText(n) {
        var now := run + Plains(indent) + CodePieces(n.value) + Plains(style.lineBreak);
        AllText(nodes[1..], depth, style, now, rest, condense);
        TextOf(n, depth, style, condense);
        CodesArePieces(n.value, '<', tail);
        WriteTwo(run + Plains(indent) + CodePieces(n.value), Plains(style.lineBreak), more + rest);
        WriteTwo(run + Plains(indent), CodePieces(n.value), tail);
        WriteTwo(run, Plains(indent), PrintBody(n, depth, style) + tail);
        PlainsWrite(indent, PrintBody(n, depth, style) + tail);
      } else {
        var (items, last) := LayAll(nodes[1..], depth, style, Plains(style.lineBreak));
        AllText(nodes[1..], depth, style, Plains(style.lineBreak), rest, condense);
        BodyText(n, depth, style, tail, condense);
        var first := Item(run + Plains(indent), Lay(n, depth, style));
        WriteTwo(run, Plains(indent), PrintBody(n, depth, style) + tail);
        PlainsWrite(indent, PrintBody(n, depth, style) + tail);
        assert ([first] + items)[1..] == items;
      }
    }
  }

  lemma TextOf(n: Node, depth: nat, style: Style, condense: bool)
    requires IsPlainText(n) && ValidNode(n, condense)
    ensures PrintBody(n, depth, style) == Encode(n.value) && ValidText(n.value, condense)
  {
  }

  // ---------- and it means the nodes ----------

  lemma {:induction false} LayMeans(n: Node, depth: nat, style: Style, condense: bool)
    requires WhiteStyle(style, condense) && ValidNode(n, condense) && !IsPlainText(n)
    ensures LegalMarkup(Lay(n, depth, style)) && Meant(Lay(n, depth, style), condense) == n
    decreases n, 0
  {
    if n.Element? {
      hide LegalAttrs, LayAttrs, CodePieces, Plains, T.NoReference, TextMeant, LegalPieces, LegalName, ValidText, White;
      var m := Lay(n, depth, style);
      LayAttrsLegal(n.attributes);
      AttributesText(n.attributes, "");
      NoWhite();
      if n.children == [] {
        assert m == Tag(n.name, LayAttrs(n.attributes), " ", Empty);
      } else if IsSimple(n.children) {
        var v := n.children[0].value;
        SimpleText(n.children, condense);
        SimpleMeans(v, condense);
        assert n.children == [Text(v, false)];
        assert [] + TextMeant(CodePieces(v), condense) == n.children;
        assert m == Tag(n.name, LayAttrs(n.attributes), "", Full([], CodePieces(v), ""));
        BodyMeans([], CodePieces(v), condense);
      } else {
        IndentIsWhite(style, depth, condense);
        NoText(style.lineBreak, condense);
        var (items, last) := LayAll(n.children, depth + 1, style, Plains(style.lineBreak));
        var t := AllMeans(n.children, depth + 1, style, Plains(style.lineBreak), style.lineBreak, [], condense);
        MoreWhite(last, t, Indent(style, depth), condense);
        var run := last + Plains(Indent(style, depth));
        RunIsLegal(run, t, condense);
        assert m == Tag(n.name, LayAttrs(n.attributes), "", Full(items, run, ""));
        assert [] + n.children == n.children;
        hide Lay, LayAll, RunMeans, ValidNode;
        BodyMeans(items, run, condense);
      }
    } else {
      LeafText(n, depth, style, "", condense);
    }
  }

  lemma BodyMeans(items: seq<Item>, run: seq<Piece>, condense: bool)
    requires LegalItems(items) && LegalPieces(run, '<')
    ensures LegalBody(Full(items, run, ""))
    ensures BodyMeant(Full(items, run, ""), condense) == ItemsMeant(items, condense) + TextMeant(run, condense)
  {
  }

  lemma RunIsLegal(run: seq<Piece>, t: seq<Node>, condense: bool)
    requires RunMeans(run, t, condense)
    ensures LegalPieces(run, '<')
  {
  }

  lemma NoWhite()
    ensures White("") && White(" ")
  {
  }

  lemma SimpleMeans(v: string, condense: bool)
    requires ValidText(v, condense)
    ensures LegalPieces(CodePieces(v), '<') && TextMeant(CodePieces(v), condense) == [Text(v, false)]
  {
    hide TextMeant, ValidText;
    TextRun("", v, condense);
    assert Plains("") + CodePieces(v) + Plains("") == CodePieces(v);
    assert White("");
    RunIsLegal(Plains("") + CodePieces(v), [Text(v, false)], condense);
    assert Plains("") + CodePieces(v) == CodePieces(v);
  }

  lemma IndentedText(w: string, indent: string, n: Node, lineBreak: string, condense: bool)
    requires IsPlainText(n) && ValidText(n.value, condense) && White(w) && White(indent) && White(lineBreak)
    requires condense || w == indent == lineBreak == ""
    ensures RunMeans(Plains(w) + Plains(indent) + CodePieces(n.value) + Plains(lineBreak), [n], condense)
  {
    hide RunMeans, CodePieces, Plains, ValidText, White;
    WhiteConcat(w, indent);
    PlainsConcat(w, indent);
    TextRun(w + indent, n.value, condense);
    MoreWhite(Plains(w + indent) + CodePieces(n.value), [n], lineBreak, condense);
  }

  lemma OneItem(first: Item, items: seq<Item>, t: seq<Node>, n: Node, condense: bool)
    requires TextMeant(first.run, condense) == t && Meant(first.markup, condense) == n
    requires LegalPieces(first.run, '<') && LegalMarkup(first.markup) && LegalItems(items)
    ensures ItemsMeant([first] + items, condense) == t + ([n] + ItemsMeant(items, condense))
    ensures LegalItems([first] + items)
  {
    hide TextMeant, Meant, LegalPieces, LegalMarkup;
    assert ([first] + items)[1..] == items;
  }

  lemma JoinMeant(t: seq<Node>, nodes: seq<Node>, items: seq<Node>, t': seq<Node>)
    requires nodes != [] && items + t' == [] + nodes[1..]
    ensures t + ([nodes[0]] + items) + t' == t + nodes
  {
    assert nodes == [nodes[0]] + (items + t');
  }

  /** The laid out children stand for the nodes, with t in front, which the run so far stands for. */
  lemma {:induction false} AllMeans(nodes: seq<Node>, depth: nat, style: Style, run: seq<Piece>, w: string, t: seq<Node>,
                                    condense: bool) returns (t': seq<Node>)
    requires WhiteStyle(style, condense) && ValidNodes(nodes, condense) && RunMeans(run, t, condense)
    requires t == [] ==> run == Plains(w) && White(w) && (condense || w == "")
    requires nodes != [] && IsPlainText(nodes[0]) ==> t == []
    ensures var (items, last) := LayAll(nodes, depth, style, run);
            LegalItems(items) && RunMeans(last, t', condense) && ItemsMeant(items, condense) + t' == t + nodes
    decreases nodes, 1
  {
    hide RunMeans, Lay, LegalMarkup, Meant, CodePieces, Plains, TextMeant, ValidNode, ValidText, White, LegalPieces, Indent;
    if nodes == [] {
      t' := t;
      assert [] + t' == t + nodes;
    } else {
      var n, indent := nodes[0], Indent(style, depth);
      IndentIsWhite(style, depth, condense);
      if IsPlainText(n) {
        TextOf(n, depth, style, condense);
        IndentedText(w, indent, n, style.lineBreak, condense);
        t' := AllMeans(nodes[1..], depth, style, run + Plains(indent) + CodePieces(n.value) + Plains(style.lineBreak), "",
                       [n], condense);
        assert t + nodes == [n] + nodes[1..];
      } else {
        MoreWhite(run, t, indent, condense);
        RunIsLegal(run + Plains(indent), t, condense);
        LayMeans(n, depth, style, condense);
        NoText(style.lineBreak, condense);
        t' := AllMeans(nodes[1..], depth, style, Plains(style.lineBreak), style.lineBreak, [], condense);
        var (items, last) := LayAll(nodes[1..], depth, style, Plains(style.lineBreak));
        var first := Item(run + Plains(indent), Lay(n, depth, style));
        OneItem(first, items, t, n, condense);
        JoinMeant(t, nodes, ItemsMeant(items, condense), t');
      }
    }
  }

  // ---------- Documents ----------

  predicate NoPlainText(nodes: seq<Node>) {
    forall k :: 0 <= k < |nodes| ==> !IsPlainText(nodes[k])
  }

  function LayDocument(nodes: seq<Node>, style: Style, gap: string): seq<Spaced> {
    if nodes == [] then []
    else [Spaced(gap, Lay(nodes[0], 0, style))] + LayDocument(nodes[1..], style, style.lineBreak)
  }

  lemma {:induction false} DocumentText(nodes: seq<Node>, style: Style, gap: string, condense: bool)
    requires WhiteStyle(style, condense) && ValidNodes(nodes, condense) && NoPlainText(nodes) && White(gap)
    ensures var last := if nodes == [] then gap else style.lineBreak;
            var doc := LayDocument(nodes, style, gap);
            && WriteDocument(doc, last) == gap + PrintNodes(nodes, 0, style)
            && LegalDocument(doc) && DocumentMeant(doc, condense) == nodes
    decreases |nodes|
  {
    hide PrintBody, Lay, LegalMarkup, Meant, WriteMarkup, ValidNode, White;
    if nodes == [] {
      assert gap + "" == gap;
    } else {
      var n, rest := nodes[0], style.lineBreak + PrintNodes(nodes[1..], 0, style);
      DocumentText(nodes[1..], style, style.lineBreak, condense);
      BodyText(n, 0, style, rest, condense);
      LayMeans(n, 0, style, condense);
      var more := LayDocument(nodes[1..], style, style.lineBreak);
      var doc := LayDocument(nodes, style, gap);
      assert doc[0] == Spaced(gap, Lay(n, 0, style)) && doc[1..] == more;
      assert PrintNodes(nodes, 0, style) == PrintBody(n, 0, style) + rest by {
        assert "" + PrintBody(n, 0, style) == PrintBody(n, 0, style);
        Regroup(PrintBody(n, 0, style), style.lineBreak, PrintNodes(nodes[1..], 0, style));
      }
      assert nodes == [n] + nodes[1..];
    }
  }

  /** Printing a document and parsing the text restores its nodes, and no error is recorded. */
  lemma ParseOfPrinted(nodes: seq<Node>, style: Style, condense: bool)
    requires WhiteStyle(style, condense) && nodes != [] && ValidNodes(nodes, condense) && NoPlainText(nodes)
    ensures ParseDocument(PrintNodes(nodes, 0, style), condense).value == nodes
    ensures ParseDocument(PrintNodes(nodes, 0, style), condense).err == NoError
  {
    hide PrintNodes, ParseDocument, WriteDocument, LegalDocument, DocumentMeant, ValidNodes;
    DocumentText(nodes, style, "", condense);
    assert "" + PrintNodes(nodes, 0, style) == PrintNodes(nodes, 0, style);
    DocumentRead(LayDocument(nodes, style, ""), style.lineBreak, condense);
  }

  // ---------- The printed text is a C string ----------

  lemma {:induction false} EncodedHasNoNul(v: string)
    requires T.NoReference(v)
    ensures '\0' !in Encode(v)
  {
    if v == "" {
    } else {
      T.EncodeStep(v);
      EncodedHasNoNul(v[1..]);
    }
  }

  lemma QuotedHasNoNul(name: string, value: string)
    requires '\0' !in name && '\0' !in value
    ensures '\0' !in name + "='" + value + "'" && '\0' !in name + "=\"" + value + "\""
  {
  }

  lemma AttributeHasNoNul(a: Attribute)
    requires LegalName(a.name) && T.NoReference(a.value)
    ensures '\0' !in PrintAttribute(a)
  {
    EncodeName(a.name);
    EncodedHasNoNul(a.value);
    assert '\0' !in a.name;
    QuotedHasNoNul(a.name, Encode(a.value));
    hide Encode, T.NoReference, LegalName;
    assert '\0' !in PrintAttribute(a);
  }

  lemma {:induction false} AttributesHaveNoNul(attributes: seq<Attribute>)
    requires forall k :: 0 <= k < |attributes| ==> LegalName(attributes[k].name) && T.NoReference(attributes[k].value)
    ensures '\0' !in PrintAttributes(attributes)
  {
    if attributes == [] {
    } else {
      AttributeHasNoNul(attributes[0]);
      AttributesHaveNoNul(attributes[1..]);
    }
  }

  lemma FieldHasNoNul(name: string, value: string)
    requires '\0' !in name && ValidField(value)
    ensures '\0' !in Field(name, value)
  {
  }

  lemma DeclarationHasNoNul(n: Node, depth: nat, style: Style)
    requires n.Declaration? && ValidField(n.version) && ValidField(n.encoding) && ValidField(n.standalone)
    ensures '\0' !in PrintBody(n, depth, style)
  {
    hide Field, ValidField;
    FieldHasNoNul("version", n.version);
    FieldHasNoNul("encoding", n.encoding);
    FieldHasNoNul("standalone", n.standalone);
  }

  lemma ElementHasNoNul(n: Node, depth: nat, style: Style)
    requires n.Element? && LegalName(n.name) && ValidAttributes(n.attributes)
    requires '\0' !in PrintNodes(n.children, depth + 1, style) && '\0' !in Indent(style, depth) && '\0' !in style.lineBreak
    requires IsSimple(n.children) ==> '\0' !in Encode(n.children[0].value)
    ensures '\0' !in PrintBody(n, depth, style)
  {
    hide PrintNodes, PrintAttributes, Indent, Encode, LegalName, T.NoReference;
    NameIsC(n.name);
    AttributesHaveNoNul(n.attributes);
    var start, end := "<" + n.name + PrintAttributes(n.attributes), "</" + n.name + ">";
    assert '\0' !in start && '\0' !in end;
  }

  lemma {:induction false} BodyHasNoNul(n: Node, depth: nat, style: Style, condense: bool)
    requires WhiteStyle(style, condense) && ValidNode(n, condense)
    ensures '\0' !in PrintBody(n, depth, style)
    decreases n, 0
  {
    hide Field, CStr, Encode, T.NoReference;
    match n
    case Text(value, cdata) =>
      if cdata { WholeCStr(value); } else { EncodedHasNoNul(value); }
    case Comment(value) => WholeCStr(value);
    case Unknown(value) => WholeCStr(value);
    case Declaration(_, _, _) => DeclarationHasNoNul(n, depth, style);
    case Element(name, attributes, children) =>
      NodesHaveNoNul(children, depth + 1, style, condense);
      if IsSimple(children) {
        SimpleText(children, condense);
        EncodedHasNoNul(children[0].value);
      }
      IndentIsWhite(style, depth, condense);
      ElementHasNoNul(n, depth, style);
  }

  /** What the printer writes for a valid tree can be handed to the parser as a C string. */
  lemma {:induction false} NodesHaveNoNul(nodes: seq<Node>, depth: nat, style: Style, condense: bool)
    requires WhiteStyle(style, condense) && ValidNodes(nodes, condense)
    ensures '\0' !in PrintNodes(nodes, depth, style)
    decreases nodes, 1
  {
    if nodes == [] {
    } else {
      IndentIsWhite(style, depth, condense);
      BodyHasNoNul(nodes[0], depth, style, condense);
      NodesHaveNoNul(nodes[1..], depth, style, condense);
    }
  }
}
