/** The parser reads whatever XmlSyntax can write as the nodes that it stands for, keeping or condensing white space. */
module XmlReading {
  import opened Concat
  import opened XmlLex
  import opened XmlParse
  import opened XmlSyntax
  import T = XmlTextRoundTrip
  import U = XmlUtf8

  // ---------- References ----------

  lemma {:induction false} NumberIsValue(digits: string, base: nat)
    requires base in {10, 16} && forall c :: c in digits ==> IsDigit(c, base)
    ensures U.Digits(digits, base) && U.ValueOf(digits, base) == Number(digits, base)
  {
    if digits == "" {
    } else {
      assert digits[|digits| - 1] in digits;
      NumberIsValue(digits[..|digits| - 1], base);
    }
  }

  lemma EntityRead(name: string, rest: string)
    requires LegalPiece(Entity(name), '<')
    ensures GetChar(PieceText(Entity(name)) + rest) == (At(rest), [PieceChar(Entity(name))])
  {
    hide GetChar;
    var i := if name == "amp" then 0 else if name == "lt" then 1 else if name == "gt" then 2
             else if name == "quot" then 3 else 4;
    assert PieceText(Entity(name)) == ENTITIES[i].0 && PieceChar(Entity(name)) == ENTITIES[i].1;
    T.GetCharOfEntity(i, rest);
  }

  lemma DecimalRead(digits: string, rest: string)
    requires LegalPiece(Decimal(digits), '<')
    ensures GetChar(PieceText(Decimal(digits)) + rest) == (At(rest), [PieceChar(Decimal(digits))])
  {
    hide NumericReference, Number, U.ValueOf, U.Digits;
    NumberIsValue(digits, 10);
    U.DecimalReferenceIsRight(digits, rest);
    assert PieceText(Decimal(digits)) + rest == "&#" + (digits + [';'] + rest);
    assert (PieceText(Decimal(digits)) + rest)[0] == '&';
  }

  lemma HexRead(digits: string, rest: string)
    requires LegalPiece(Hex(digits), '<')
    ensures GetChar(PieceText(Hex(digits)) + rest) == (At(rest), [PieceChar(Hex(digits))])
  {
    hide NumericReference, Number, U.ValueOf, U.Digits;
    NumberIsValue(digits, 16);
    U.HexReferenceIsRight(digits, rest);
    assert PieceText(Hex(digits)) + rest == "&#x" + (digits + [';'] + rest);
    assert (PieceText(Hex(digits)) + rest)[0] == '&';
  }

  /** Every piece is read as its character, whatever follows it. */
  lemma PieceRead(p: Piece, stop: char, rest: string)
    requires LegalPiece(p, stop)
    ensures GetChar(PieceText(p) + rest) == (At(rest), [PieceChar(p)])
  {
    hide GetChar, PieceChar, PieceText;
    match p
    case Plain(c) => PlainRead(c, rest);
    case Entity(name) => EntityRead(name, rest);
    case Decimal(digits) => DecimalRead(digits, rest);
    case Hex(digits) => HexRead(digits, rest);
  }

  lemma PlainRead(c: char, rest: string)
    requires c != '&'
    ensures GetChar(PieceText(Plain(c)) + rest) == (At(rest), [PieceChar(Plain(c))])
  {
    assert (PieceText(Plain(c)) + rest)[1..] == rest;
  }

  lemma PieceStarts(p: Piece, stop: char, rest: string)
    requires LegalPiece(p, stop) && stop in {'<', '\'', '\"'}
    ensures var s := PieceText(p) + rest;
            && s != "" && s[0] != stop
            && (IsWhitePiece(p) ==> IsSpace(s[0]) && s[1..] == rest)
            && (!IsWhitePiece(p) ==> !IsSpace(s[0]))
  {
    var s := PieceText(p) + rest;
    assert s[0] == PieceText(p)[0];
    assert p.Plain? ==> s[1..] == rest;
  }

  // ---------- Text ----------

  lemma {:induction false} KeptRead(ps: seq<Piece>, stop: char, rest: string)
    requires LegalPieces(ps, stop) && stop in {'<', '\'', '\"'} && rest != "" && rest[0] == stop
    ensures KeepText(WritePieces(ps, rest), [stop]) == (At(rest), Kept(ps))
  {
    hide GetChar, PieceText, PieceChar, LegalPiece;
    var s := WritePieces(ps, rest);
    if ps == [] {
      T.AtEndTag(s, stop);
    } else {
      PieceStarts(ps[0], stop, WritePieces(ps[1..], rest));
      PieceRead(ps[0], stop, WritePieces(ps[1..], rest));
      T.AtEndTag(s, stop);
      KeptRead(ps[1..], stop, rest);
    }
  }

  lemma {:induction false} CondensedRead(ps: seq<Piece>, stop: char, rest: string, spaced: bool)
    requires LegalPieces(ps, stop) && stop in {'<', '\'', '\"'} && rest != "" && rest[0] == stop
    ensures CondenseText(WritePieces(ps, rest), [stop], spaced) == (At(rest), Condensed(ps, spaced))
  {
    hide GetChar, PieceText, PieceChar, LegalPiece, IsWhitePiece, IsSpace;
    var s := WritePieces(ps, rest);
    if ps == [] {
      T.AtEndTag(s, stop);
    } else {
      PieceStarts(ps[0], stop, WritePieces(ps[1..], rest));
      PieceRead(ps[0], stop, WritePieces(ps[1..], rest));
      T.AtEndTag(s, stop);
      CondensedRead(ps[1..], stop, rest, IsWhitePiece(ps[0]));
    }
  }

  lemma {:induction false} SkipsWhitePieces(ps: seq<Piece>, stop: char, rest: string)
    requires LegalPieces(ps, stop) && stop in {'<', '\'', '\"'} && rest != "" && rest[0] == stop
    ensures DropSpaces(WritePieces(ps, rest)) == WritePieces(TrimWhite(ps), rest)
    ensures LegalPieces(TrimWhite(ps), stop)
  {
    hide PieceText, LegalPiece, IsWhitePiece;
    if ps == [] {
    } else {
      PieceStarts(ps[0], stop, WritePieces(ps[1..], rest));
      if IsWhitePiece(ps[0]) {
        SkipsWhitePieces(ps[1..], stop, rest);
      }
    }
  }

  lemma WritesSome(ps: seq<Piece>, stop: char, rest: string)
    requires LegalPieces(ps, stop) && stop in {'<', '\'', '\"'} && rest != ""
    ensures WritePieces(ps, rest) != "" && (ps != [] ==> WritePieces(ps, rest)[0] != stop)
  {
    if ps != [] {
      PieceStarts(ps[0], stop, WritePieces(ps[1..], rest));
    }
  }

  /** Character data is read as its value, up to the markup behind it. */
  lemma TextRead(ps: seq<Piece>, rest: string, condense: bool)
    requires LegalPieces(ps, '<') && rest != "" && rest[0] == '<'
    ensures TextUpTo(WritePieces(ps, rest), condense, "<") == (At(rest), TextValue(ps, condense))
  {
    hide KeepText, CondenseText, WritePieces, Kept, Condensed, TrimWhite, LegalPieces;
    WritesSome(ps, '<', rest);
    if condense {
      SkipsWhitePieces(ps, '<', rest);
      CondensedRead(TrimWhite(ps), '<', rest, false);
    } else {
      KeptRead(ps, '<', rest);
    }
  }

  /** A quoted value is read up to its closing quote. */
  lemma QuotedRead(ps: seq<Piece>, quote: char, rest: string)
    requires LegalPieces(ps, quote) && quote in {'\'', '\"'} && rest != ""
    ensures ReadText(WritePieces(ps, [quote] + rest), false, [quote]) == (At(rest), Kept(ps))
  {
    hide KeepText, WritePieces, Kept, LegalPieces;
    KeptRead(ps, quote, [quote] + rest);
    T.AfterEndTag(WritePieces(ps, [quote] + rest), false, quote, rest, Kept(ps));
  }

  // ---------- White space and names ----------

  lemma {:induction false} SkipsWhite(w: string, s: string)
    requires White(w) && (s == "" || !IsSpace(s[0]))
    ensures DropSpaces(w + s) == s
  {
    if w == "" {
      assert w + s == s;
    } else {
      assert w[0] in w;
      SkipsWhite(w[1..], s);
      assert (w + s)[1..] == w[1..] + s;
    }
  }

  lemma {:induction false} NameLengthOf(name: string, tail: string)
    requires (forall c :: c in name ==> ContinuesName(c)) && (tail == "" || !IsNameChar(tail[0]))
    ensures NameLength(name + tail) == |name|
  {
    if name == "" {
      assert name + tail == tail;
    } else {
      assert name[0] in name;
      NameLengthOf(name[1..], tail);
      assert (name + tail)[1..] == name[1..] + tail;
    }
  }

  lemma NameRead(name: string, tail: string)
    requires LegalName(name) && (tail == "" || !IsNameChar(tail[0]))
    ensures ReadName(At(name + tail)) == (At(tail), name)
    ensures DropSpaces(name + tail) == name + tail && (name + tail)[0] == name[0]
  {
    assert name[0] in name;
    NameLengthOf(name, tail);
  }

  /** Behind white space the text goes on with a character that neither continues a name nor is white space. */
  lemma AfterWhite(w: string, s: string)
    requires White(w) && s != "" && !IsNameChar(s[0])
    ensures w + s != "" && !IsNameChar((w + s)[0])
  {
    if w != "" {
      assert w[0] in w && (w + s)[0] == w[0];
    } else {
      assert w + s == s;
    }
  }

  // ---------- Attributes ----------

  /** What may follow the name or an attribute of a tag in any case. */
  predicate Breaks(tail: string) {
    tail != "" && (IsWhite(tail[0]) || tail[0] in {'/', '>'})
  }

  lemma BareRead(value: string, name: string, rest: string, err: Error)
    requires LegalBare(value) && Breaks(rest)
    ensures ParseBareValue(value + rest, name, err) == Parsed(At(rest), Attribute(name, value), err)
    ensures !IsSpace((value + rest)[0]) && (value + rest)[0] !in {'\'', '\"'}
  {
    var s := value + rest;
    assert value[0] in value && s[0] == value[0];
    forall k | 0 <= k < |value|
      ensures !StopsBareValue(s[k])
    {
      assert s[k] == value[k] && value[k] in value;
    }
    assert s[|value|] == rest[0] && StopsBareValue(s[|value|]);
    var n := Span(s, StopsBareValue);
    assert n == |value|;
    assert s[..n] == value && s[n..] == rest;
  }

  /** What has to follow an attribute: anything behind a quote, a break behind a bare value. */
  predicate Follows(a: Attr, rest: string) {
    rest != "" && (a.Bare? ==> Breaks(rest))
  }

  lemma ValueRead(a: Attr, rest: string, err: Error)
    requires LegalAttr(a) && Follows(a, rest)
    ensures ParseValue(a.w2 + WriteValue(a, rest), a.name, err) == Parsed(At(rest), AttrMeant(a), err)
  {
    hide ParseBareValue, ReadText, WritePieces, Kept, LegalPieces, LegalBare;
    var v := WriteValue(a, rest);
    match a {
      case Quoted(_, _, _, _, quote, pieces) =>
        assert v[0] == quote && v[1..] == WritePieces(pieces, [quote] + rest);
        QuotedRead(pieces, quote, rest);
      case Bare(_, name, _, _, value) =>
        assert LegalBare(value) ==> v != "" by { NotEmpty(value); }
        BareRead(value, name, rest, err);
    }
    SkipsWhite(a.w2, v);
    assert a.w2 + v != "";
  }

  lemma NotEmpty(value: string)
    ensures LegalBare(value) ==> value != ""
  {
  }

  lemma EqualsRead(a: Attr, rest: string, err: Error)
    requires LegalAttr(a) && Follows(a, rest)
    ensures var s := a.w1 + ("=" + (a.w2 + WriteValue(a, rest)));
            && s != "" && !IsNameChar(s[0])
            && ParseEquals(At(s), a.name, err) == Parsed(At(rest), AttrMeant(a), err)
  {
    hide ParseValue, WriteValue, LegalPieces, LegalBare, AttrMeant;
    var v := "=" + (a.w2 + WriteValue(a, rest));
    assert v[0] == '=' && v[1..] == a.w2 + WriteValue(a, rest);
    ValueRead(a, rest, err);
    SkipsWhite(a.w1, v);
    AfterWhite(a.w1, v);
  }

  /**
    An attribute is read with any white space in front of its name and on either side of the equals sign, in either
    quotes or bare.
   */
  lemma AttributeRead(a: Attr, rest: string, err: Error)
    requires LegalAttr(a) && Follows(a, rest)
    ensures ParseAttribute(WriteAttr(a, rest), err) == Parsed(At(rest), AttrMeant(a), err)
    ensures WriteAttr(a, rest) != "" && DropSpaces(WriteAttr(a, rest)) != ""
    ensures DropSpaces(WriteAttr(a, rest))[0] == a.name[0] && StartsName(a.name[0])
    ensures ParseAttribute(DropSpaces(WriteAttr(a, rest)), err) == Parsed(At(rest), AttrMeant(a), err)
  {
    hide ParseEquals, ReadName, WriteValue, AttrMeant, LegalPieces, LegalBare, NameLength;
    var s := a.w1 + ("=" + (a.w2 + WriteValue(a, rest)));
    EqualsRead(a, rest, err);
    NameRead(a.name, s);
    assert a.name[0] in a.name;
    SkipsWhite(a.before, a.name + s);
  }

  /** Attributes that may follow those already read. */
  ghost predicate LegalRest(done: seq<Attribute>, attrs: seq<Attr>) {
    && (forall k :: 0 <= k < |attrs| ==> LegalAttr(attrs[k]))
    && (forall k :: 0 < k < |attrs| ==> attrs[k].before != "" || attrs[k - 1].Quoted?)
    && (forall j, k :: 0 <= j < k < |attrs| ==> attrs[j].name != attrs[k].name)
    && (forall k :: 0 <= k < |attrs| ==> !HasAttribute(done, attrs[k].name))
  }

  /** A written attribute starts with its white space or else with its name. */
  lemma AttrStarts(a: Attr, rest: string)
    requires LegalAttr(a)
    ensures WriteAttr(a, rest) != ""
    ensures a.before != "" ==> IsWhite(WriteAttr(a, rest)[0])
  {
    hide WriteValue;
    var tail := a.w1 + ("=" + (a.w2 + WriteValue(a, rest)));
    assert |tail| >= 1;
    if a.before != "" {
      assert a.before[0] in a.before && WriteAttr(a, rest)[0] == a.before[0];
    }
  }

  /** A break in front of the next attribute, or the end of the tag. */
  lemma NextFollows(done: seq<Attribute>, attrs: seq<Attr>, tail: string)
    requires attrs != [] && LegalRest(done, attrs) && Breaks(tail)
    ensures Follows(attrs[0], WriteAttrs(attrs[1..], tail))
  {
    hide LegalAttr, WriteAttr, HasAttribute;
    if |attrs| > 1 {
      assert attrs[1..][0] == attrs[1];
      AttrStarts(attrs[1], WriteAttrs(attrs[1..][1..], tail));
    }
  }

  lemma RestIsLegal(done: seq<Attribute>, attrs: seq<Attr>)
    requires attrs != [] && LegalRest(done, attrs)
    ensures LegalRest(done + [AttrMeant(attrs[0])], attrs[1..])
  {
    hide LegalAttr;
    var now := done + [AttrMeant(attrs[0])];
    assert AttrMeant(attrs[0]).name == attrs[0].name;
    forall k | 0 <= k < |attrs[1..]|
      ensures !HasAttribute(now, attrs[1..][k].name)
    {
      assert attrs[1..][k] == attrs[k + 1];
      assert forall j :: 0 <= j < |done| ==> now[j] == done[j];
    }
  }

  /** One round of the attribute loop. */
  lemma TagStep(a: Attr, rest: string, name: string, done: seq<Attribute>, condense: bool, err: Error)
    requires LegalAttr(a) && Follows(a, rest) && !HasAttribute(done, a.name)
    ensures ParseTag(WriteAttr(a, rest), name, done, condense, err)
         == ParseTag(rest, name, done + [AttrMeant(a)], condense, err)
  {
    hide ParseAttribute, WriteAttr, LegalAttr, ReadValue, ParseEndTag, HasAttribute;
    AttributeRead(a, rest, err);
    assert AttrMeant(a).name == a.name;
  }

  lemma NextIsLegal(done: seq<Attribute>, attrs: seq<Attr>)
    requires attrs != [] && LegalRest(done, attrs)
    ensures LegalAttr(attrs[0]) && !HasAttribute(done, attrs[0].name)
  {
  }

  /** The attributes of a tag are read in order, in whatever layout. */
  lemma {:induction false} AttrsRead(done: seq<Attribute>, attrs: seq<Attr>, tail: string, name: string, condense: bool,
                                     err: Error)
    requires LegalRest(done, attrs) && Breaks(tail)
    ensures WriteAttrs(attrs, tail) != ""
    ensures ParseTag(WriteAttrs(attrs, tail), name, done, condense, err)
         == ParseTag(tail, name, done + AttrsMeant(attrs), condense, err)
    decreases |attrs|
  {
    hide ParseTag, LegalAttr, WriteAttr, Breaks, Follows, HasAttribute, LegalRest, AttrMeant;
    if attrs == [] {
      assert done + AttrsMeant(attrs) == done;
      BreaksSome(tail);
    } else {
      var rest := WriteAttrs(attrs[1..], tail);
      NextFollows(done, attrs, tail);
      NextIsLegal(done, attrs);
      AttrStarts(attrs[0], rest);
      TagStep(attrs[0], rest, name, done, condense, err);
      RestIsLegal(done, attrs);
      AttrsRead(done + [AttrMeant(attrs[0])], attrs[1..], tail, name, condense, err);
      assert (done + [AttrMeant(attrs[0])]) + AttrsMeant(attrs[1..]) == done + AttrsMeant(attrs);
    }
  }

  lemma BreaksSome(tail: string)
    requires Breaks(tail)
    ensures tail != ""
  {
  }

  // ---------- Tags ----------

  lemma GapBreaks(gap: string, s: string)
    requires White(gap) && s != "" && s[0] in {'/', '>'}
    ensures Breaks(gap + s) && DropSpaces(gap + s) == s
  {
    SkipsWhite(gap, s);
    if gap != "" {
      assert gap[0] in gap && (gap + s)[0] == gap[0];
    } else {
      assert gap + s == s;
    }
  }

  /** Behind its name a tag goes on with something that does not continue the name. */
  lemma NameEnds(attrs: seq<Attr>, tail: string)
    requires LegalAttrs(attrs) && Breaks(tail)
    ensures var s := WriteAttrs(attrs, tail); s != "" && !IsNameChar(s[0])
  {
    hide WriteAttr, LegalAttr;
    if attrs != [] {
      assert attrs[0].before != "";
      AttrStarts(attrs[0], WriteAttrs(attrs[1..], tail));
      assert IsWhite(WriteAttrs(attrs, tail)[0]);
    }
  }

  lemma EmptyRead(gap: string, rest: string, name: string, attributes: seq<Attribute>, condense: bool, err: Error)
    requires White(gap)
    ensures ParseTag(gap + ("/>" + rest), name, attributes, condense, err)
         == Parsed(At(rest), Element(name, attributes, []), err)
  {
    hide ReadValue, ParseEndTag, ParseAttribute;
    var s := "/>" + rest;
    GapBreaks(gap, s);
    assert s[2..] == rest;
  }

  lemma EndRead(node: Node, endGap: string, rest: string, err: Error)
    requires node.Element? && White(endGap)
    ensures ParseEndTag(At(WriteEnd(node.name, endGap, rest)), node, err) == Parsed(At(rest), node, err)
  {
    var endTag, tail := "</" + node.name, endGap + (">" + rest);
    assert WriteEnd(node.name, endGap, rest) == endTag + tail;
    MatchesTagPrefix(endTag + tail, endTag);
    assert (endTag + tail)[|endTag|..] == tail;
    SkipsWhite(endGap, ">" + rest);
    assert (">" + rest)[1..] == rest;
  }

  lemma FullRead(gap: string, content: string, node: Node, endGap: string, rest: string, condense: bool, err: Error)
    requires White(gap) && White(endGap) && node.Element?
    requires ReadValue(content, condense, err) == Parsed(At(WriteEnd(node.name, endGap, rest)), node.children, err)
    ensures ParseTag(gap + (">" + content), node.name, node.attributes, condense, err) == Parsed(At(rest), node, err)
  {
    hide ReadValue, ParseEndTag, ParseAttribute;
    var s := ">" + content;
    GapBreaks(gap, s);
    assert s[1..] == content;
    EndRead(node, endGap, rest, err);
  }

  lemma HeadRead(name: string, u: string, condense: bool, err: Error)
    requires LegalName(name) && u != "" && !IsNameChar(u[0])
    ensures ParseElement("<" + (name + u), condense, err) == ParseTag(u, name, [], condense, err)
  {
    hide ParseTag;
    var s := "<" + (name + u);
    assert s[1..] == name + u && DropSpaces(s) == s;
    NameRead(name, u);
  }

  // ---------- Kinds of markup ----------

  function KindOf(m: Markup): Kind {
    match m
    case Tag(_, _, _, _) => ElementKind
    case CData(_) => CDataKind
    case Remark(_) => CommentKind
    case Other(_) => UnknownKind
    case Prolog(_, _) => DeclarationKind
  }

  lemma IdentifyBy(s: string)
    requires |s| > 1 && s[0] == '<'
    ensures StringEqual(s, "<?xml", true) <==> StartsProlog(s[1..])
    ensures StringEqual(s, COMMENT_START, false) <==> "<!--" <= s
    ensures StringEqual(s, CDATA_START, false) <==> "<![CDATA[" <= s
    ensures StringEqual(s, "<!", false) <==> s[1] == '!'
    ensures StringEqual(s, "</", false) <==> s[1] == '/'
  {
    MatchesTagPrefix(s, "<!--");
    MatchesTagPrefix(s, "<![CDATA[");
    MatchesTagPrefix(s, "<!");
    MatchesTagPrefix(s, "</");
    PrologMatches(s);
  }

  lemma PrologMatches(s: string)
    requires |s| > 1 && s[0] == '<'
    ensures MatchesTag(s, "<?xml", true) <==> StartsProlog(s[1..])
  {
    var tag := "<?xml";
    assert tag[1..] == "?xml" && tag[2..] == "xml" && tag[3..] == "ml" && tag[4..] == "l" && tag[5..] == "";
    assert "?xml"[1..] == "xml" && "xml"[1..] == "ml" && "ml"[1..] == "l" && "l"[1..] == "";
    assert MatchesTag(s, tag, true) == MatchesTag(s[1..], "?xml", true);
    var v := s[1..];
    if |v| >= 4 {
      assert v[1..][0] == v[1] && v[1..][1..] == v[2..] && v[2..][0] == v[2] && v[2..][1..] == v[3..] && v[3..][0] == v[3];
      assert MatchesTag(v, "?xml", true) == (v[0] == '?' && MatchesTag(v[1..], "xml", true));
      assert MatchesTag(v[1..], "xml", true) == (v[1] in {'x', 'X'} && MatchesTag(v[2..], "ml", true));
      assert MatchesTag(v[2..], "ml", true) == (v[2] in {'m', 'M'} && MatchesTag(v[3..], "l", true));
      assert MatchesTag(v[3..], "l", true) == (v[3] in {'l', 'L'});
    } else if MatchesTag(s, tag, true) {
      MatchesTagLength(s, tag, true);
      assert false;
    }
  }

  /** What stands behind an opening bracket decides the kind, the declaration in any case. */
  lemma IdentifyExactly(v: string)
    ensures Identify("<" + v) == DeclarationKind <==> StartsProlog(v)
    ensures Identify("<" + v) == CommentKind <==> "!--" <= v
    ensures Identify("<" + v) == CDataKind <==> "![CDATA[" <= v
    ensures Identify("<" + v) == ElementKind <==> v != "" && StartsName(v[0])
  {
    var s := "<" + v;
    if v != "" {
      assert s[1..] == v && s[1] == v[0];
      IdentifyBy(s);
      Prefixed("!--", v);
      Prefixed("![CDATA[", v);
      assert "!--" <= v ==> v[0] == '!' && v[1] == '-';
      assert "![CDATA[" <= v ==> v[0] == '!' && v[1] == '[';
    } else {
      NoMarkBehind(s, "<?xml", true);
      NoMarkBehind(s, COMMENT_START, false);
      NoMarkBehind(s, CDATA_START, false);
    }
  }

  lemma NoMarkBehind(s: string, tag: string, ignoreCase: bool)
    requires |s| < |tag|
    ensures !MatchesTag(s, tag, ignoreCase)
  {
    if MatchesTag(s, tag, ignoreCase) {
      MatchesTagLength(s, tag, ignoreCase);
    }
  }

  lemma Prefixed(tag: string, t: string)
    ensures "<" + tag <= "<" + t <==> tag <= t
  {
    assert ("<" + tag)[1..] == tag && ("<" + t)[1..] == t;
    assert "<" + tag <= "<" + t <==> ("<" + tag)[1..] <= ("<" + t)[1..];
  }

  /** Where parsing stops: CDATA at the very end of the input gives null. */
  function Behind(m: Markup, rest: string): Ptr {
    if m.CData? && rest == "" then Null else At(rest)
  }

  /** Parsing s finds the node that m stands for and stops in front of rest; s is markup but no end tag. */
  ghost predicate ReadsAs(s: string, m: Markup, rest: string, condense: bool, err: Error) {
    && s != "" && s[0] == '<' && !StringEqual(s, "</", false)
    && Identify(s) == KindOf(m)
    && ParseNode(KindOf(m), s, condense, err) == Parsed(Behind(m, rest), Meant(m, condense), err)
  }

  /** An end tag whose last character differs from the others does not start inside the text in front of it. */
  lemma NoEarlyEnd(v: string, endTag: string, rest: string)
    requires v != "" && |endTag| == 3 && endTag[2] != endTag[0] && endTag[2] != endTag[1] && Absent(v, endTag)
    ensures !(endTag <= v + (endTag + rest)) && Absent(v[1..], endTag)
  {
    var s := v + (endTag + rest);
    assert v[0..] == v;
    assert |v| >= 3 ==> s[..3] == v[..3];
    assert |s| >= 3 && (|v| == 1 ==> s[2] == endTag[1]) && (|v| == 2 ==> s[2] == endTag[0]);
    assert endTag <= s <==> endTag == s[..3];
    forall i | 0 <= i <= |v[1..]|
      ensures !(endTag <= v[1..][i..])
    {
      assert v[1..][i..] == v[i + 1..];
    }
  }

  lemma {:induction false} VerbatimRead(v: string, endTag: string, rest: string)
    requires |endTag| == 3 && endTag[2] != endTag[0] && endTag[2] != endTag[1] && Absent(v, endTag)
    ensures Verbatim(v + (endTag + rest), endTag) == (v, endTag + rest)
  {
    hide Absent;
    var s := v + (endTag + rest);
    MatchesTagPrefix(s, endTag);
    if v == "" {
      assert s == endTag + rest;
    } else {
      NoEarlyEnd(v, endTag, rest);
      VerbatimRead(v[1..], endTag, rest);
      assert s[1..] == v[1..] + (endTag + rest);
      assert [v[0]] + v[1..] == v;
    }
  }

  lemma RemarkRead(v: string, rest: string, condense: bool, err: Error)
    requires Absent(v, "-->")
    ensures ReadsAs(WriteMarkup(Remark(v), rest), Remark(v), rest, condense, err)
  {
    hide MatchesTag, Verbatim, Absent;
    var s := WriteMarkup(Remark(v), rest);
    assert s[1] == '!';
    IdentifyBy(s);
    MatchesTagPrefix(s, COMMENT_START);
    VerbatimRead(v, COMMENT_END, rest);
    assert s[|COMMENT_START|..] == v + (COMMENT_END + rest);
    assert (COMMENT_END + rest)[|COMMENT_END|..] == rest;
  }

  lemma CDataRead(v: string, rest: string, condense: bool, err: Error)
    requires Absent(v, "]]>")
    ensures ReadsAs(WriteMarkup(CData(v), rest), CData(v), rest, condense, err)
  {
    hide MatchesTag, Verbatim, Absent;
    var s := WriteMarkup(CData(v), rest);
    assert s[1] == '!' && s[2] == '[';
    IdentifyBy(s);
    MatchesTagPrefix(s, CDATA_START);
    VerbatimRead(v, CDATA_END, rest);
    assert s[|CDATA_START|..] == v + (CDATA_END + rest);
    MatchesTagPrefix(CDATA_END + rest, CDATA_END);
    assert (CDATA_END + rest)[|CDATA_END|..] == rest;
  }

  lemma {:induction false} SamePrefix(v: string, tag: string, rest: string)
    requires '>' !in tag
    ensures tag <= v + (">" + rest) <==> tag <= v
  {
    var t := v + (">" + rest);
    if tag == "" {
    } else if v == "" {
      assert tag[0] in tag && t[0] == '>';
    } else {
      assert tag == [tag[0]] + tag[1..] && v == [v[0]] + v[1..];
      SamePrefix(v[1..], tag[1..], rest);
      assert t == [v[0]] + (v[1..] + (">" + rest));
    }
  }

  lemma OtherIdentified(v: string, rest: string)
    requires LegalOther(v)
    ensures var s := WriteMarkup(Other(v), rest);
            s != "" && s[0] == '<' && !StringEqual(s, "</", false) && Identify(s) == UnknownKind
  {
    var s := WriteMarkup(Other(v), rest);
    var t := v + (">" + rest);
    assert s[1..] == t && s[1] == t[0];
    IdentifyBy(s);
    SamePrefix(v, "!--", rest);
    SamePrefix(v, "![CDATA[", rest);
    assert "<!--" <= s <==> "!--" <= t by {
      Prefixed("!--", t);
    }
    assert "<![CDATA[" <= s <==> "![CDATA[" <= t by {
      Prefixed("![CDATA[", t);
    }
    assert |v| < 4 ==> t[|v|] == '>';
  }

  lemma {:induction false} FindBehind(s: string, c: char, rest: string)
    requires c !in s
    ensures Find(s + ([c] + rest), c) == |s|
  {
    if s == "" {
      assert s + ([c] + rest) == [c] + rest;
    } else {
      assert s[0] in s;
      FindBehind(s[1..], c, rest);
      assert (s + ([c] + rest))[1..] == s[1..] + ([c] + rest);
    }
  }

  lemma OtherRead(v: string, rest: string, condense: bool, err: Error)
    requires LegalOther(v)
    ensures ReadsAs(WriteMarkup(Other(v), rest), Other(v), rest, condense, err)
  {
    hide ParseUnknown, Identify, StringEqual;
    OtherIdentified(v, rest);
    OtherParsed(v, rest, err);
  }

  lemma PlainMark()
    ensures !IsSpace('?') && !IsSpace('<') && !IsSpace('>')
  {
  }

  lemma OtherParsed(v: string, rest: string, err: Error)
    requires '>' !in v
    ensures ParseUnknown("<" + (v + (">" + rest)), err) == Parsed(At(rest), Unknown(v), err)
  {
    hide IsSpace;
    var t := v + (">" + rest);
    FindBehind(v, '>', rest);
    assert ("<" + t)[1..] == t && ("<" + t)[0] == '<';
    assert t[|v| + 1..] == rest && t[..|v|] == v;
    assert !IsSpace('<') by { PlainMark(); }
  }

  lemma TagIdentified(name: string, u: string)
    requires LegalName(name)
    ensures var s := "<" + (name + u);
            s != "" && s[0] == '<' && !StringEqual(s, "</", false) && Identify(s) == ElementKind
  {
    var s := "<" + (name + u);
    assert name[0] in name && s[1] == name[0];
    IdentifyBy(s);
  }

  // ---------- Declarations ----------

  /** a is b, which has small letters, with some letters capital. */
  predicate Caseless(a: string, b: string) {
    |a| == |b| && forall k :: 0 <= k < |a| ==> a[k] == b[k] || ('A' <= a[k] <= 'Z' && b[k] as int == a[k] as int + 32)
  }

  lemma {:induction false} MatchesCaseless(a: string, name: string, u: string)
    requires Caseless(a, name) && forall c :: c in name ==> !('A' <= c <= 'Z')
    ensures MatchesTag(a + u, name, true)
  {
    if name == "" {
    } else {
      assert name[0] in name && forall c :: c in name[1..] ==> c in name;
      MatchesCaseless(a[1..], name[1..], u);
      assert (a + u)[1..] == a[1..] + u;
    }
  }

  function SetField(d: Node, name: string, value: string): (e: Node)
    requires d.Declaration?
    ensures e.Declaration?
  {
    if name == "version" then d.(version := value)
    else if name == "encoding" then d.(encoding := value)
    else d.(standalone := value)
  }

  function SetFields(d: Node, fields: seq<Attr>): (e: Node)
    requires d.Declaration?
    ensures e.Declaration?
    decreases |fields|
  {
    if fields == [] then d else SetFields(SetField(d, fields[0].name, AttrMeant(fields[0]).value), fields[1..])
  }

  lemma WholeCStr(s: string)
    requires '\0' !in s
    ensures CStr(s) == s
  {
    assert forall k :: 0 <= k < |s| ==> s[k] in s;
  }

  lemma FieldByName(a: string, name: string, u: string, d: Node)
    requires name in {"version", "encoding", "standalone"} && Caseless(a, name) && d.Declaration?
    ensures var r := ParseAttribute(a + u, NoError);
            DeclarationField(a + u, d) == (r.p, SetField(d, name, CStr(r.value.value)))
  {
    hide ParseAttribute, CStr;
    MatchesCaseless(a, name, u);
    assert (a + u)[0] == a[0];
  }

  /** A field of the declaration is read whatever the case of its name. */
  lemma FieldRead(a: Attr, name: string, rest: string, d: Node)
    requires LegalAttr(a) && a.Quoted? && '\0' !in Kept(a.pieces) && d.Declaration? && rest != ""
    requires name in {"version", "encoding", "standalone"} && Caseless(a.name, name)
    ensures DeclarationField(DropSpaces(WriteAttr(a, rest)), d) == (At(rest), SetField(d, name, AttrMeant(a).value))
    ensures var s := WriteAttr(a, rest); s != "" && s[0] != '>'
  {
    hide ParseAttribute, DeclarationField, SetField, Caseless, WriteValue, LegalPieces, Kept;
    var u := a.w1 + ("=" + (a.w2 + WriteValue(a, rest)));
    AttributeRead(a, rest, NoError);
    assert DropSpaces(WriteAttr(a, rest)) == a.name + u by {
      assert (a.name + u)[0] == a.name[0];
      SkipsWhite(a.before, a.name + u);
    }
    FieldByName(a.name, name, u, d);
    WholeCStr(AttrMeant(a).value);
    AttrStarts(a, rest);
    assert a.before == "" ==> WriteAttr(a, rest) == a.name + u;
  }

  lemma {:induction false} FieldsRead(fields: seq<Attr>, tail: string, d: Node, err: Error)
    requires LegalFields(fields) && d.Declaration? && tail != ""
    ensures WriteAttrs(fields, tail) != ""
    ensures ParseDeclarationFields(WriteAttrs(fields, tail), d, err)
         == ParseDeclarationFields(tail, SetFields(d, fields), err)
    decreases |fields|
  {
    hide DeclarationField, WriteAttr, LegalAttr, AttrMeant, SetField, Kept;
    if fields == [] {
    } else {
      var a, rest := fields[0], WriteAttrs(fields[1..], tail);
      FieldsRead(fields[1..], tail, SetField(d, a.name, AttrMeant(a).value), err);
      FieldRead(a, a.name, rest, d);
    }
  }

  lemma PrologEnds(gap: string, rest: string, d: Node, err: Error)
    requires White(gap) && d.Declaration?
    ensures ParseDeclarationFields(gap + ("?>" + rest), d, err) == Parsed(At(rest), d, err)
  {
    hide IsSpace, DeclarationField;
    var t, tail := "?>" + rest, gap + ("?>" + rest);
    PlainMark();
    SkipsWhite(gap, t);
    if gap != "" {
      assert gap[0] in gap && tail[0] == gap[0];
      assert gap[0] != '>' by { BracketIsPlain(gap[0]); }
    } else {
      assert tail == t;
    }
    MarkSkipped(rest, d);
    assert t[1..] == ">" + rest && (">" + rest)[1..] == rest;
  }

  lemma BracketIsPlain(c: char)
    requires IsWhite(c)
    ensures c != '>'
  {
  }

  /** A question mark is no field: it is passed over. */
  lemma MarkSkipped(rest: string, d: Node)
    requires d.Declaration?
    ensures DeclarationField("?>" + rest, d) == (At(">" + rest), d)
  {
    hide IsSpace, ParseAttribute;
    var t := "?>" + rest;
    PlainMark();
    assert t[0] == '?' && t[1..] == ">" + rest && t[1..][0] == '>';
    assert StopsField('>') && !StopsField('?');
    assert Span(t, StopsField) == 1;
  }

  lemma {:induction false} SetFieldsIsValues(d: Node, fields: seq<Attr>)
    requires d.Declaration? && LegalFields(fields)
    ensures SetFields(d, fields)
         == Declaration(if Names(fields, "version") then FieldValue(fields, "version") else d.version,
                        if Names(fields, "encoding") then FieldValue(fields, "encoding") else d.encoding,
                        if Names(fields, "standalone") then FieldValue(fields, "standalone") else d.standalone)
    decreases |fields|
  {
    hide AttrMeant, LegalAttr, Kept;
    if fields == [] {
    } else {
      SetFieldsIsValues(SetField(d, fields[0].name, AttrMeant(fields[0]).value), fields[1..]);
      NamesStep(fields, "version");
      NamesStep(fields, "encoding");
      NamesStep(fields, "standalone");
    }
  }

  predicate Names(fields: seq<Attr>, name: string) {
    exists k :: 0 <= k < |fields| && fields[k].name == name
  }

  lemma NamesStep(fields: seq<Attr>, name: string)
    requires fields != [] && LegalFields(fields)
    ensures Names(fields, name) <==> fields[0].name == name || Names(fields[1..], name)
    ensures fields[0].name == name ==> !Names(fields[1..], name)
  {
    hide LegalAttr, Kept;
    if Names(fields, name) && fields[0].name != name {
      var k :| 0 <= k < |fields| && fields[k].name == name;
      assert fields[1..][k - 1].name == name;
    }
    if Names(fields[1..], name) {
      var k :| 0 <= k < |fields[1..]| && fields[1..][k].name == name;
      assert fields[k + 1].name == name;
    }
  }

  lemma {:induction false} NoField(fields: seq<Attr>, name: string)
    requires !Names(fields, name)
    ensures FieldValue(fields, name) == ""
  {
    if fields == [] {
    } else {
      assert fields[0].name != name;
      assert forall k :: 0 <= k < |fields[1..]| ==> fields[1..][k] == fields[k + 1];
      NoField(fields[1..], name);
    }
  }

  lemma PrologRead(fields: seq<Attr>, gap: string, rest: string, condense: bool, err: Error)
    requires LegalFields(fields) && White(gap)
    ensures var m := Prolog(fields, gap); ReadsAs(WriteMarkup(m, rest), m, rest, condense, err)
  {
    hide ParseDeclarationFields, WriteAttrs, LegalFields, MatchesTag, FieldValue, Names;
    var m, tail := Prolog(fields, gap), gap + ("?>" + rest);
    var s := WriteMarkup(m, rest);
    var t, none := WriteAttrs(fields, tail), Declaration("", "", "");
    assert s == "<?xml" + t && s[5..] == t;
    assert s[1] == '?' && s[2] == 'x' && s[3] == 'm' && s[4] == 'l';
    assert s[1..][0] == '?' && s[1..][1] == 'x' && s[1..][2] == 'm' && s[1..][3] == 'l';
    IdentifyBy(s);
    assert |tail| >= 2;
    FieldsRead(fields, tail, none, err);
    PrologEnds(gap, rest, SetFields(none, fields), err);
    SetFieldsIsValues(none, fields);
    NoFields(fields);
  }

  lemma NoFields(fields: seq<Attr>)
    ensures forall name :: !Names(fields, name) ==> FieldValue(fields, name) == ""
  {
    forall name | !Names(fields, name)
      ensures FieldValue(fields, name) == ""
    {
      NoField(fields, name);
    }
  }

  // ---------- Content ----------

  lemma {:induction false} AllWhitePieces(ps: seq<Piece>)
    requires TrimWhite(ps) == []
    ensures White(Kept(ps)) && White(Condensed(TrimWhite(ps), false))
  {
    if ps == [] {
    } else {
      AllWhitePieces(ps[1..]);
    }
  }

  /** What ReadValue makes of a text depends on the text behind its white space only, if that is markup. */
  lemma SkipsToMarkup(s: string, m: string, condense: bool, err: Error)
    requires s != "" && m != "" && DropSpaces(s) == m && m[0] == '<'
    ensures ReadValue(s, condense, err) == ReadValue(m, condense, err)
  {
    hide ParseNode, ParseText, Identify, MatchesTag;
    assert DropSpaces(m) == m;
  }

  lemma TextParsed(ps: seq<Piece>, m: string, condense: bool, err: Error)
    requires LegalPieces(ps, '<') && |m| > 1 && m[0] == '<' && ps != []
    ensures ParseText(WritePieces(ps, m), false, condense, err) == Parsed(At(m), Text(TextValue(ps, condense), false), err)
  {
    hide TextUpTo, TextValue, WritePieces, LegalPieces;
    var s := WritePieces(ps, m);
    WritesSome(ps, '<', m);
    MatchesTagPrefix(s, CDATA_START);
    TextRead(ps, m, condense);
  }

  lemma {:induction false} TrimTwice(ps: seq<Piece>)
    ensures TrimWhite(TrimWhite(ps)) == TrimWhite(ps)
  {
    if ps == [] {
    } else if IsWhitePiece(ps[0]) {
      TrimTwice(ps[1..]);
    }
  }

  /** Character data that is not all white space is read as one child, or dropped when its value is blank. */
  lemma RunRead(ps: seq<Piece>, m: string, condense: bool, err: Error)
    requires LegalPieces(ps, '<') && |m| > 1 && m[0] == '<' && TrimWhite(ps) != []
    ensures var s := WritePieces(ps, m);
            && s != "" && DropSpaces(s) != "" && DropSpaces(s)[0] != '<'
            && ReadChild(s, DropSpaces(s), condense, err) == Parsed(At(m), TextMeant(ps, condense), err)
  {
    hide ParseText, TextValue, WritePieces, LegalPieces, TrimWhite;
    var s := WritePieces(ps, m);
    SkipsWhitePieces(ps, '<', m);
    WritesSome(TrimWhite(ps), '<', m);
    SomePieces(ps);
    if condense {
      TextParsed(TrimWhite(ps), m, condense, err);
      TrimTwice(ps);
      SameValue(ps);
    } else {
      TextParsed(ps, m, condense, err);
    }
    BlankIsWhite(TextValue(ps, condense));
  }

  lemma SomePieces(ps: seq<Piece>)
    ensures TrimWhite(ps) != [] ==> ps != []
  {
  }

  lemma SameValue(ps: seq<Piece>)
    requires TrimWhite(TrimWhite(ps)) == TrimWhite(ps)
    ensures TextValue(TrimWhite(ps), true) == TextValue(ps, true)
  {
  }

  lemma BlankIsWhite(v: string)
    ensures IsBlank(v) <==> White(v)
  {
  }

  /** Character data in front of markup. */
  lemma ReadRun(ps: seq<Piece>, m: string, condense: bool, err: Error)
    requires LegalPieces(ps, '<') && |m| > 1 && m[0] == '<'
    ensures var r := ReadValue(m, condense, err);
            ReadValue(WritePieces(ps, m), condense, err) == Parsed(r.p, TextMeant(ps, condense) + r.value, r.err)
  {
    hide WritePieces, LegalPieces, TrimWhite, ReadChild, Kept, Condensed;
    var s, r := WritePieces(ps, m), ReadValue(m, condense, err);
    SkipsWhitePieces(ps, '<', m);
    WritesSome(ps, '<', m);
    if TrimWhite(ps) == [] {
      assert WritePieces([], m) == m by { NoPieces(m); }
      AllWhitePieces(ps);
      SkipsToMarkup(s, m, condense, err);
      assert [] + r.value == r.value;
    } else {
      RunRead(ps, m, condense, err);
      NotAnEnd(DropSpaces(s));
    }
  }

  lemma NoPieces(m: string)
    ensures WritePieces([], m) == m
  {
  }

  lemma NotAnEnd(t: string)
    requires t != "" && t[0] != '<'
    ensures !StringEqual(t, "</", false)
  {
    MatchesTagPrefix(t, "</");
  }

  /** A piece of markup as the next child. */
  lemma ReadNext(m: Markup, rest: string, condense: bool, err: Error)
    requires rest != "" && ReadsAs(WriteMarkup(m, rest), m, rest, condense, err)
    ensures var r := ReadValue(rest, condense, err);
            ReadValue(WriteMarkup(m, rest), condense, err) == Parsed(r.p, [Meant(m, condense)] + r.value, r.err)
  {
    hide ParseNode, Identify, WriteMarkup, Meant, MatchesTag;
    var s := WriteMarkup(m, rest);
    assert DropSpaces(s) == s;
  }

  lemma MarkupStarts(m: Markup, rest: string)
    ensures |WriteMarkup(m, rest)| > 1 && WriteMarkup(m, rest)[0] == '<'
  {
    hide WriteAttrs, WriteBody;
    match m
    case Tag(name, attrs, gap, body) =>
      var u := WriteAttrs(attrs, gap + WriteBody(name, body, rest));
      WritesAttrs(attrs, gap + WriteBody(name, body, rest));
      WritesBody(name, body, rest);
    case CData(value) =>
    case Remark(value) =>
    case Other(value) =>
    case Prolog(fields, gap) =>
  }

  lemma {:induction false} WritesAttrs(attrs: seq<Attr>, tail: string)
    ensures |WriteAttrs(attrs, tail)| >= |tail|
  {
    if attrs == [] {
    } else {
      WritesAttrs(attrs[1..], tail);
      WritesValue(attrs[0], WriteAttrs(attrs[1..], tail));
    }
  }

  lemma {:induction false} WritesValue(a: Attr, rest: string)
    ensures |WriteValue(a, rest)| >= |rest|
  {
    match a
    case Quoted(_, _, _, _, quote, pieces) => WritesPieces(pieces, [quote] + rest);
    case Bare(_, _, _, _, value) =>
  }

  lemma {:induction false} WritesPieces(ps: seq<Piece>, rest: string)
    ensures |WritePieces(ps, rest)| >= |rest|
  {
    if ps == [] {
    } else {
      WritesPieces(ps[1..], rest);
    }
  }

  lemma WritesBody(name: string, body: Body, rest: string)
    ensures WriteBody(name, body, rest) != "" && WriteBody(name, body, rest)[0] in {'/', '>'}
  {
  }

  lemma EndTagStarts(name: string, endGap: string, rest: string)
    ensures var s := WriteEnd(name, endGap, rest); |s| > 1 && s[0] == '<' && "</" <= s
  {
  }

  /** In front of an end tag there is nothing to read. */
  lemma ReadNothing(end: string, condense: bool, err: Error)
    requires |end| > 1 && "</" <= end
    ensures ReadValue(end, condense, err) == Parsed(At(end), [], err)
  {
    MatchesTagPrefix(end, "</");
    assert DropSpaces(end) == end;
  }

  lemma {:induction false} ItemsRead(items: seq<Item>, last: seq<Piece>, end: string, condense: bool, err: Error)
    requires LegalItems(items) && LegalPieces(last, '<') && |end| > 1 && "</" <= end
    ensures WriteItems(items, WritePieces(last, end)) != ""
    ensures ReadValue(WriteItems(items, WritePieces(last, end)), condense, err)
         == Parsed(At(end), ItemsMeant(items, condense) + TextMeant(last, condense), err)
    decreases items, 1
  {
    hide ReadValue, WritePieces, TextMeant, LegalPieces, LegalMarkup, WriteMarkup, Meant, ReadsAs;
    if items == [] {
      WritesSome(last, '<', end);
      ReadRun(last, end, condense, err);
      ReadNothing(end, condense, err);
      assert TextMeant(last, condense) + [] == [] + TextMeant(last, condense);
    } else {
      var m, rest := items[0].markup, WriteItems(items[1..], WritePieces(last, end));
      ItemsRead(items[1..], last, end, condense, err);
      MarkupRead(m, rest, condense, err);
      MarkupStarts(m, rest);
      WritesSome(items[0].run, '<', WriteMarkup(m, rest));
      ReadNext(m, rest, condense, err);
      ReadRun(items[0].run, WriteMarkup(m, rest), condense, err);
      OneMoreItem(TextMeant(items[0].run, condense), [Meant(m, condense)], ItemsMeant(items[1..], condense),
                  TextMeant(last, condense));
    }
  }

  lemma OneMoreItem(a: seq<Node>, b: seq<Node>, c: seq<Node>, d: seq<Node>)
    ensures a + (b + (c + d)) == (a + (b + c)) + d
  {
  }

  lemma {:induction false} TagRead(m: Markup, rest: string, condense: bool, err: Error)
    requires LegalMarkup(m) && m.Tag?
    ensures ReadsAs(WriteMarkup(m, rest), m, rest, condense, err)
    decreases m, 0
  {
    hide ParseTag, WriteAttrs, LegalAttrs, WriteItems, WritePieces, LegalPieces, LegalItems, AttrsMeant, ReadValue, Identify,
         WriteEnd, ItemsMeant, TextMeant, Breaks;
    var name, attrs, gap, body := m.name, m.attrs, m.gap, m.body;
    var tail := gap + WriteBody(name, body, rest);
    WritesBody(name, body, rest);
    GapBreaks(gap, WriteBody(name, body, rest));
    NameEnds(attrs, tail);
    TagIdentified(name, WriteAttrs(attrs, tail));
    HeadRead(name, WriteAttrs(attrs, tail), condense, err);
    FirstIsLegal(attrs);
    AttrsRead([], attrs, tail, name, condense, err);
    assert [] + AttrsMeant(attrs) == AttrsMeant(attrs);
    assert Meant(m, condense) == Element(name, AttrsMeant(attrs), BodyMeant(body, condense));
    assert m == Tag(name, attrs, gap, body) && LegalBody(body);
    match body {
      case Empty => EmptyRead(gap, rest, name, AttrsMeant(attrs), condense, err);
      case Full(items, last, endGap) =>
        var end := WriteEnd(name, endGap, rest);
        EndTagStarts(name, endGap, rest);
        ItemsRead(items, last, end, condense, err);
        FullRead(gap, WriteItems(items, WritePieces(last, end)), Meant(m, condense), endGap, rest, condense, err);
    }
  }

  lemma FirstIsLegal(attrs: seq<Attr>)
    requires LegalAttrs(attrs)
    ensures LegalRest([], attrs)
  {
  }

  /** Markup of any kind, in any layout and followed by anything, is read as the node it stands for. */
  lemma {:induction false} MarkupRead(m: Markup, rest: string, condense: bool, err: Error)
    requires LegalMarkup(m)
    ensures ReadsAs(WriteMarkup(m, rest), m, rest, condense, err)
    decreases m, 1
  {
    hide WriteMarkup, ReadsAs;
    match m
    case Tag(_, _, _, _) => TagRead(m, rest, condense, err);
    case CData(value) => CDataRead(value, rest, condense, err);
    case Remark(value) => RemarkRead(value, rest, condense, err);
    case Other(value) => OtherRead(value, rest, condense, err);
    case Prolog(fields, gap) => PrologRead(fields, gap, rest, condense, err);
  }

  // ---------- Documents ----------

  lemma TopLevelStep(m: Markup, s: string, rest: string, condense: bool, err: Error)
    requires s != "" && DropSpaces(s) == WriteMarkup(m, rest) && ReadsAs(WriteMarkup(m, rest), m, rest, condense, err)
    ensures var r := ParseTopLevel(SkipWhiteSpace(At(rest)), condense, err);
            ParseTopLevel(SkipWhiteSpace(At(s)), condense, err) == Parsed(r.p, [Meant(m, condense)] + r.value, r.err)
  {
    hide ParseNode, Identify, WriteMarkup, Meant;
    assert SkipWhiteSpace(Behind(m, rest)) == SkipWhiteSpace(At(rest));
  }

  lemma TopLevelEnds(w: string, condense: bool, err: Error)
    requires White(w)
    ensures var r := ParseTopLevel(SkipWhiteSpace(At(w)), condense, err);
            r.value == [] && r.err == err
  {
    SkipsWhite(w, "");
    assert w + "" == w;
  }

  lemma {:induction false} TopLevelRead(doc: seq<Spaced>, last: string, condense: bool, err: Error)
    requires LegalDocument(doc) && White(last)
    ensures var r := ParseTopLevel(SkipWhiteSpace(At(WriteDocument(doc, last))), condense, err);
            r.value == DocumentMeant(doc, condense) && r.err == err
    decreases |doc|
  {
    hide ParseTopLevel, SkipWhiteSpace, ReadsAs, WriteMarkup, Meant, LegalMarkup;
    if doc == [] {
      TopLevelEnds(last, condense, err);
    } else {
      var gap, m, rest := doc[0].gap, doc[0].markup, WriteDocument(doc[1..], last);
      MarkupStarts(m, rest);
      MarkupRead(m, rest, condense, err);
      SkipsWhite(gap, WriteMarkup(m, rest));
      TopLevelStep(m, WriteDocument(doc, last), rest, condense, err);
      TopLevelRead(doc[1..], last, condense, err);
    }
  }

  /**
    A document in any layout, a declaration in front or not, is parsed to the nodes it stands for, and no error is
    recorded.
   */
  lemma DocumentRead(doc: seq<Spaced>, last: string, condense: bool)
    requires LegalDocument(doc) && White(last) && doc != []
    ensures ParseDocument(WriteDocument(doc, last), condense).value == DocumentMeant(doc, condense)
    ensures ParseDocument(WriteDocument(doc, last), condense).err == NoError
  {
    hide ParseTopLevel, WriteMarkup, Meant, LegalMarkup;
    TopLevelRead(doc, last, condense, NoError);
    MarkupStarts(doc[0].markup, WriteDocument(doc[1..], last));
  }
}
