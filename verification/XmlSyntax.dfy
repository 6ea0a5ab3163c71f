/**
  XML as it is written: text with references, tags with white space between their tokens, comments, CDATA and
  declarations, each with the node it stands for. Nothing here refers to how the parser works.
 */
module XmlSyntax {
  import opened XmlParse

  // ---------- Characters ----------

  predicate IsWhite(c: char) {
    c as int in {9, 10, 11, 12, 13, 32}
  }

  predicate White(w: string) {
    forall c :: c in w ==> IsWhite(c)
  }

  predicate StartsName(c: char) {
    'A' <= c <= 'Z' || 'a' <= c <= 'z' || c == '_' || c as int >= 127
  }

  predicate ContinuesName(c: char) {
    StartsName(c) || '0' <= c <= '9' || c == '-' || c == '.' || c == ':'
  }

  predicate LegalName(name: string) {
    name != "" && StartsName(name[0]) && forall c :: c in name ==> ContinuesName(c)
  }

  // ---------- References: section 4.1 and section 4.6 of XML 1.0 ----------

  datatype Piece = Plain(c: char) | Entity(name: string) | Decimal(digits: string) | Hex(digits: string)

  function PieceText(p: Piece): string {
    match p
    case Plain(c) => [c]
    case Entity(name) => "&" + name + ";"
    case Decimal(digits) => "&#" + digits + ";"
    case Hex(digits) => "&#x" + digits + ";"
  }

  predicate IsDigit(c: char, base: nat) {
    '0' <= c <= '9' || (base == 16 && ('a' <= c <= 'f' || 'A' <= c <= 'F'))
  }

  function DigitValue(c: char): nat {
    if '0' <= c <= '9' then c as int - 48
    else if 'a' <= c <= 'f' then c as int - 87
    else if 'A' <= c <= 'F' then c as int - 55
    else 0
  }

  function Number(digits: string, base: nat): nat {
    if digits == "" then 0 else Number(digits[..|digits| - 1], base) * base + DigitValue(digits[|digits| - 1])
  }

  /** What a piece may be in text that ends at stop. A numeric reference stands for one byte. */
  predicate LegalPiece(p: Piece, stop: char) {
    match p
    case Plain(c) => c != '&' && c != stop
    case Entity(name) => name in {"amp", "lt", "gt", "quot", "apos"}
    case Decimal(digits) => (forall c :: c in digits ==> IsDigit(c, 10)) && Number(digits, 10) < 256
    case Hex(digits) => (forall c :: c in digits ==> IsDigit(c, 16)) && Number(digits, 16) < 256
  }

  predicate LegalPieces(ps: seq<Piece>, stop: char) {
    forall k :: 0 <= k < |ps| ==> LegalPiece(ps[k], stop)
  }

  function PieceChar(p: Piece): char {
    match p
    case Plain(c) => c
    case Entity(name) =>
      if name == "amp" then '&'
      else if name == "lt" then '<'
      else if name == "gt" then '>'
      else if name == "quot" then '\"'
      else '\''
    case Decimal(digits) => (Number(digits, 10) % 256) as char
    case Hex(digits) => (Number(digits, 16) % 256) as char
  }

  predicate IsWhitePiece(p: Piece) {
    p.Plain? && IsWhite(p.c)
  }

  /** The text of the pieces with rest behind it. */
  function WritePieces(ps: seq<Piece>, rest: string): string {
    if ps == [] then rest else PieceText(ps[0]) + WritePieces(ps[1..], rest)
  }

  function Kept(ps: seq<Piece>): string {
    if ps == [] then "" else [PieceChar(ps[0])] + Kept(ps[1..])
  }

  /** Each run of white space becomes one space; references to white space are not part of a run. */
  function Condensed(ps: seq<Piece>, spaced: bool): string {
    if ps == [] then ""
    else if IsWhitePiece(ps[0]) then Condensed(ps[1..], true)
    else (if spaced then " " else "") + [PieceChar(ps[0])] + Condensed(ps[1..], false)
  }

  function TrimWhite(ps: seq<Piece>): seq<Piece> {
    if ps != [] && IsWhitePiece(ps[0]) then TrimWhite(ps[1..]) else ps
  }

  function TextValue(ps: seq<Piece>, condense: bool): string {
    if condense then Condensed(TrimWhite(ps), false) else Kept(ps)
  }

  /** Character data between markup: a text node unless it is blank. */
  function TextMeant(ps: seq<Piece>, condense: bool): seq<Node> {
    var value := TextValue(ps, condense);
    if White(value) then [] else [Text(value, false)]
  }

  // ---------- Attributes ----------

  /** White space in front of the name and on either side of the equals sign; the value in quotes or bare. */
  datatype Attr =
    | Quoted(before: string, name: string, w1: string, w2: string, quote: char, pieces: seq<Piece>)
    | Bare(before: string, name: string, w1: string, w2: string, value: string)

  function WriteValue(a: Attr, rest: string): string {
    match a
    case Quoted(_, _, _, _, quote, pieces) => [quote] + WritePieces(pieces, [quote] + rest)
    case Bare(_, _, _, _, value) => value + rest
  }

  function WriteAttr(a: Attr, rest: string): string {
    a.before + (a.name + (a.w1 + ("=" + (a.w2 + WriteValue(a, rest)))))
  }

  function WriteAttrs(attrs: seq<Attr>, rest: string): string {
    if attrs == [] then rest else WriteAttr(attrs[0], WriteAttrs(attrs[1..], rest))
  }

  function AttrMeant(a: Attr): Attribute {
    match a
    case Quoted(_, name, _, _, _, pieces) => Attribute(name, Kept(pieces))
    case Bare(_, name, _, _, value) => Attribute(name, value)
  }

  function AttrsMeant(attrs: seq<Attr>): (r: seq<Attribute>)
    ensures |r| == |attrs|
  {
    if attrs == [] then [] else [AttrMeant(attrs[0])] + AttrsMeant(attrs[1..])
  }

  predicate LegalBare(value: string) {
    value != "" && forall c :: c in value ==> !IsWhite(c) && c !in {'/', '>', '\'', '\"'}
  }

  predicate LegalAttr(a: Attr) {
    && White(a.before) && LegalName(a.name) && White(a.w1) && White(a.w2)
    && match a
       case Quoted(_, _, _, _, quote, pieces) => quote in {'\'', '\"'} && LegalPieces(pieces, quote)
       case Bare(_, _, _, _, value) => LegalBare(value)
  }

  /** White space may be missing only behind a closing quote, and no name comes twice. */
  predicate LegalAttrs(attrs: seq<Attr>) {
    && (forall k :: 0 <= k < |attrs| ==> LegalAttr(attrs[k]))
    && (attrs != [] ==> attrs[0].before != "")
    && (forall k :: 0 < k < |attrs| ==> attrs[k].before != "" || attrs[k - 1].Quoted?)
    && (forall j, k :: 0 <= j < k < |attrs| ==> attrs[j].name != attrs[k].name)
  }

  // ---------- Markup ----------

  datatype Markup =
    | Tag(name: string, attrs: seq<Attr>, gap: string, body: Body)
    | CData(value: string)
    | Remark(value: string)
    | Other(value: string)
    | Prolog(fields: seq<Attr>, gap: string)

  /** Closed by its own slash, or content with an end tag. */
  datatype Body = Empty | Full(items: seq<Item>, last: seq<Piece>, endGap: string)

  datatype Item = Item(run: seq<Piece>, markup: Markup)

  /** The text of the markup with rest behind it. */
  function WriteMarkup(m: Markup, rest: string): string
    decreases m, 1
  {
    match m
    case Tag(name, attrs, gap, body) => "<" + (name + WriteAttrs(attrs, gap + WriteBody(name, body, rest)))
    case CData(value) => "<![CDATA[" + (value + ("]]>" + rest))
    case Remark(value) => "<!--" + (value + ("-->" + rest))
    case Other(value) => "<" + (value + (">" + rest))
    case Prolog(fields, gap) => "<?xml" + WriteAttrs(fields, gap + ("?>" + rest))
  }

  function WriteEnd(name: string, endGap: string, rest: string): string {
    "</" + (name + (endGap + (">" + rest)))
  }

  function WriteBody(name: string, body: Body, rest: string): string
    decreases body, 2
  {
    match body
    case Empty => "/>" + rest
    case Full(items, last, endGap) => ">" + WriteItems(items, WritePieces(last, WriteEnd(name, endGap, rest)))
  }

  function WriteItems(items: seq<Item>, rest: string): string
    decreases items, 1
  {
    if items == [] then rest
    else WritePieces(items[0].run, WriteMarkup(items[0].markup, WriteItems(items[1..], rest)))
  }

  /** The value of the field with the name, or the empty string. */
  function FieldValue(fields: seq<Attr>, name: string): string {
    if fields == [] then ""
    else if fields[0].name == name then AttrMeant(fields[0]).value
    else FieldValue(fields[1..], name)
  }

  /** The node that the markup stands for. */
  function Meant(m: Markup, condense: bool): Node
    decreases m, 1
  {
    match m
    case Tag(name, attrs, _, body) => Element(name, AttrsMeant(attrs), BodyMeant(body, condense))
    case CData(value) => Text(value, true)
    case Remark(value) => Comment(value)
    case Other(value) => Unknown(value)
    case Prolog(fields, _) =>
      Declaration(FieldValue(fields, "version"), FieldValue(fields, "encoding"), FieldValue(fields, "standalone"))
  }

  function BodyMeant(body: Body, condense: bool): seq<Node>
    decreases body, 2
  {
    match body
    case Empty => []
    case Full(items, last, _) => ItemsMeant(items, condense) + TextMeant(last, condense)
  }

  function ItemsMeant(items: seq<Item>, condense: bool): seq<Node>
    decreases items, 1
  {
    if items == [] then []
    else TextMeant(items[0].run, condense) + ([Meant(items[0].markup, condense)] + ItemsMeant(items[1..], condense))
  }

  ghost predicate Absent(v: string, endTag: string) {
    forall i :: 0 <= i <= |v| ==> !(endTag <= v[i..])
  }

  /** "?xml" in any case. */
  predicate StartsProlog(v: string) {
    |v| >= 4 && v[0] == '?' && v[1] in {'x', 'X'} && v[2] in {'m', 'M'} && v[3] in {'l', 'L'}
  }

  /** What stands between angle brackets without being any of the other kinds: a document type, an instruction. */
  predicate LegalOther(v: string) {
    && '>' !in v
    && (v == "" || (v[0] != '/' && !StartsName(v[0])))
    && !("!--" <= v) && !("![CDATA[" <= v) && !StartsProlog(v)
  }

  predicate LegalFields(fields: seq<Attr>) {
    && (forall k :: 0 <= k < |fields| ==> LegalAttr(fields[k]) && fields[k].Quoted? && '\0' !in Kept(fields[k].pieces))
    && (forall k :: 0 <= k < |fields| ==> fields[k].name in {"version", "encoding", "standalone"})
    && (forall j, k :: 0 <= j < k < |fields| ==> fields[j].name != fields[k].name)
  }

  ghost predicate LegalMarkup(m: Markup)
    decreases m, 1
  {
    match m
    case Tag(name, attrs, gap, body) => LegalName(name) && LegalAttrs(attrs) && White(gap) && LegalBody(body)
    case CData(value) => Absent(value, "]]>")
    case Remark(value) => Absent(value, "-->")
    case Other(value) => LegalOther(value)
    case Prolog(fields, gap) => LegalFields(fields) && White(gap)
  }

  ghost predicate LegalBody(body: Body)
    decreases body, 2
  {
    body.Full? ==> LegalItems(body.items) && LegalPieces(body.last, '<') && White(body.endGap)
  }

  ghost predicate LegalItems(items: seq<Item>)
    decreases items, 1
  {
    items == [] || (LegalPieces(items[0].run, '<') && LegalMarkup(items[0].markup) && LegalItems(items[1..]))
  }

  // ---------- Documents ----------

  /** Markup at the top level, with nothing but white space in front of it. */
  datatype Spaced = Spaced(gap: string, markup: Markup)

  function WriteDocument(doc: seq<Spaced>, last: string): string {
    if doc == [] then last else doc[0].gap + WriteMarkup(doc[0].markup, WriteDocument(doc[1..], last))
  }

  function DocumentMeant(doc: seq<Spaced>, condense: bool): seq<Node> {
    if doc == [] then [] else [Meant(doc[0].markup, condense)] + DocumentMeant(doc[1..], condense)
  }

  ghost predicate LegalDocument(doc: seq<Spaced>) {
    forall k :: 0 <= k < |doc| ==> White(doc[k].gap) && LegalMarkup(doc[k].markup)
  }
}
