/** Text that is not well formed: which error the parser records, and that no nesting hides it. */
module XmlFaults {
  import opened XmlLex
  import opened XmlParse
  import opened XmlReading
  import opened XmlSyntax
  import T = XmlTextRoundTrip

  /** s is markup that is not read to its end, and e is the error that stays. */
  ghost predicate Fails(s: string, condense: bool, e: Error) {
    && |s| > 1 && s[0] == '<' && s[1] != '/' && e != NoError
    && var r := ParseNode(Identify(s), s, condense, NoError);
       r.p == Null && r.err == e
  }

  // ---------- End tags ----------

  /** What closes an element: the name, white space and a bracket. */
  ghost predicate EndsTag(t: string, name: string) {
    name <= t && exists k :: |name| <= k < |t| && t[k] == '>' && White(t[|name|..k])
  }

  lemma {:induction false} FirstBlack(t: string) returns (k: nat)
    ensures k <= |t| && White(t[..k]) && DropSpaces(t) == t[k..]
    ensures k < |t| ==> !IsWhite(t[k])
  {
    if t != "" && IsSpace(t[0]) {
      var i := FirstBlack(t[1..]);
      k := i + 1;
      assert t[..k] == [t[0]] + t[1..][..i];
    } else {
      k := 0;
    }
  }

  lemma EndsAtBlack(t: string, name: string, k: nat)
    requires name <= t
    requires var u := t[|name|..]; k <= |u| && White(u[..k]) && (k < |u| ==> !IsWhite(u[k]))
    ensures var u := t[|name|..]; EndsTag(t, name) <==> k < |u| && u[k] == '>'
  {
    var u := t[|name|..];
    if k < |u| && u[k] == '>' {
      assert t[|name|..|name| + k] == u[..k] && t[|name| + k] == '>';
    }
    if EndsTag(t, name) {
      var i :| |name| <= i < |t| && t[i] == '>' && White(t[|name|..i]);
      assert forall j :: |name| <= j < i ==> t[j] == t[|name|..i][j - |name|] && t[|name|..i][j - |name|] in t[|name|..i];
      assert k < |u| ==> u[k] == t[|name| + k];
      assert forall j :: 0 <= j < k ==> u[j] == u[..k][j] && u[..k][j] in u[..k];
      assert u[i - |name|] == '>';
    }
  }

  lemma BehindSlash(t: string, name: string)
    ensures "</" + name <= "</" + t <==> name <= t
    ensures name <= t ==> ("</" + t)[|"</" + name|..] == t[|name|..]
  {
    var s, endTag := "</" + t, "</" + name;
    assert s[2..] == t && endTag[2..] == name;
    assert endTag <= s ==> endTag[2..] == s[..|endTag|][2..] == t[..|name|];
    assert name <= t ==> s[..|endTag|] == "</" + t[..|name|];
  }

  /** An element is closed by its own name, then white space if any, then a bracket, and by nothing else. */
  lemma EndTagExactly(t: string, node: Node, err: Error)
    requires node.Element?
    ensures var r := ParseEndTag(At("</" + t), node, err);
            if EndsTag(t, node.name) then r.p.At? && r.err == err else r.p == Null && r.err == SetError(err, ReadingEndTag)
  {
    hide MatchesTag, EndsTag, White, IsWhite;
    var s, endTag := "</" + t, "</" + node.name;
    MatchesTagPrefix(s, endTag);
    BehindSlash(t, node.name);
    OwnName(t, node.name);
    if node.name <= t {
      var k := FirstBlack(t[|node.name|..]);
      EndsAtBlack(t, node.name, k);
    }
  }

  lemma OwnName(t: string, name: string)
    ensures EndsTag(t, name) ==> name <= t
  {
  }

  /** The text of an element from its start tag on, up to whatever stands in its content. */
  function Opened(name: string, attrs: seq<Attr>, gap: string, content: string): string {
    "<" + (name + WriteAttrs(attrs, gap + (">" + content)))
  }

  predicate LegalStart(name: string, attrs: seq<Attr>, gap: string) {
    LegalName(name) && LegalAttrs(attrs) && White(gap)
  }

  lemma OpenedRead(name: string, attrs: seq<Attr>, gap: string, content: string, condense: bool)
    requires LegalStart(name, attrs, gap)
    ensures var s := Opened(name, attrs, gap, content);
            var v := ReadValue(content, condense, NoError);
            && |s| > 1 && s[0] == '<' && s[1] != '/' && Identify(s) == ElementKind
            && ParseNode(ElementKind, s, condense, NoError)
               == ParseEndTag(v.p, Element(name, AttrsMeant(attrs), v.value), v.err)
  {
    hide ReadValue, ParseEndTag, WriteAttrs, LegalAttrs, AttrsMeant, ParseAttribute, Identify, DropSpaces, StringEqual;
    var tail := gap + (">" + content);
    TagStart(name, attrs, tail, condense, NoError);
    GapBreaks(gap, ">" + content);
    assert (">" + content)[1..] == content;
    assert tail != "";
  }

  /** A tag up to the end of its attributes. */
  lemma TagStart(name: string, attrs: seq<Attr>, tail: string, condense: bool, err: Error)
    requires LegalName(name) && LegalAttrs(attrs) && Breaks(tail)
    ensures var s := "<" + (name + WriteAttrs(attrs, tail));
            && |s| > 1 && s[0] == '<' && s[1] != '/' && Identify(s) == ElementKind
            && ParseNode(ElementKind, s, condense, err) == ParseTag(tail, name, AttrsMeant(attrs), condense, err)
  {
    hide ParseTag, WriteAttrs, LegalAttrs, AttrsMeant, Identify, Breaks;
    NameEnds(attrs, tail);
    TagIdentified(name, WriteAttrs(attrs, tail));
    HeadRead(name, WriteAttrs(attrs, tail), condense, err);
    FirstIsLegal(attrs);
    AttrsRead([], attrs, tail, name, condense, err);
    assert [] + AttrsMeant(attrs) == AttrsMeant(attrs);
    NotSlash(name, WriteAttrs(attrs, tail));
  }

  lemma NotSlash(name: string, u: string)
    requires LegalName(name)
    ensures var s := "<" + (name + u); |s| > 1 && s[1] != '/'
  {
    assert name[0] in name && ("<" + (name + u))[1] == name[0];
  }

  /** The end tag of another element, or none that is closed: the error is ReadingEndTag. */
  lemma WrongEndTag(name: string, attrs: seq<Attr>, gap: string, items: seq<Item>, last: seq<Piece>, t: string,
                    condense: bool)
    requires LegalStart(name, attrs, gap) && LegalItems(items) && LegalPieces(last, '<') && !EndsTag(t, name)
    ensures Fails(Opened(name, attrs, gap, WriteItems(items, WritePieces(last, "</" + t))), condense, ReadingEndTag)
  {
    hide WriteItems, WritePieces, LegalItems, LegalPieces, ReadValue, ParseEndTag, ParseNode, Opened, Identify, EndsTag,
         LegalStart;
    var content := WriteItems(items, WritePieces(last, "</" + t));
    OpenedRead(name, attrs, gap, content, condense);
    ItemsRead(items, last, "</" + t, condense, NoError);
    EndTagExactly(t, Element(name, AttrsMeant(attrs), ItemsMeant(items, condense) + TextMeant(last, condense)), NoError);
  }

  // ---------- Start tags ----------

  /** A name that was there before. */
  lemma DoubleAttribute(name: string, attrs: seq<Attr>, a: Attr, rest: string, condense: bool)
    requires LegalName(name) && LegalAttrs(attrs) && LegalAttr(a) && a.before != "" && Follows(a, rest)
    requires exists k :: 0 <= k < |attrs| && attrs[k].name == a.name
    ensures Fails("<" + (name + WriteAttrs(attrs, WriteAttr(a, rest))), condense, ParsingElement)
  {
    hide WriteAttrs, LegalAttrs, LegalAttr, LegalName, WriteAttr, HasAttribute, Follows, ParseTag, ParseNode, Identify;
    var tail := WriteAttr(a, rest);
    AttrStarts(a, rest);
    TagStart(name, attrs, tail, condense, NoError);
    NamesMeant(attrs, a.name);
    SecondRead(a, rest, name, AttrsMeant(attrs), condense);
  }

  lemma SecondRead(a: Attr, rest: string, name: string, done: seq<Attribute>, condense: bool)
    requires LegalAttr(a) && Follows(a, rest) && HasAttribute(done, a.name)
    ensures WriteAttr(a, rest) != ""
    ensures ParseTag(WriteAttr(a, rest), name, done, condense, NoError)
         == Parsed(Null, Element(name, done, []), ParsingElement)
  {
    hide ParseAttribute, WriteAttr, LegalAttr, ReadValue, ParseEndTag, HasAttribute;
    AttributeRead(a, rest, NoError);
    assert AttrMeant(a).name == a.name;
  }

  lemma {:induction false} NamesMeant(attrs: seq<Attr>, name: string)
    requires exists k :: 0 <= k < |attrs| && attrs[k].name == name
    ensures HasAttribute(AttrsMeant(attrs), name)
    decreases |attrs|
  {
    var k :| 0 <= k < |attrs| && attrs[k].name == name;
    MeantAt(attrs, k);
  }

  lemma {:induction false} MeantAt(attrs: seq<Attr>, k: nat)
    requires k < |attrs|
    ensures AttrsMeant(attrs)[k] == AttrMeant(attrs[k])
    decreases |attrs|
  {
    if k == 0 {
    } else {
      MeantAt(attrs[1..], k - 1);
    }
  }

  /** A slash that no bracket follows. */
  lemma LoneSlash(name: string, attrs: seq<Attr>, gap: string, rest: string, condense: bool)
    requires LegalStart(name, attrs, gap) && (rest == "" || rest[0] != '>')
    ensures Fails("<" + (name + WriteAttrs(attrs, gap + ("/" + rest))), condense, ParsingEmpty)
  {
    hide WriteAttrs, LegalAttrs, Identify, ReadValue, ParseEndTag, ParseAttribute;
    GapBreaks(gap, "/" + rest);
    TagStart(name, attrs, gap + ("/" + rest), condense, NoError);
  }

  /** The text ends inside the tag. */
  lemma CutInTag(name: string, attrs: seq<Attr>, gap: string, condense: bool)
    requires LegalStart(name, attrs, gap) && gap != ""
    ensures Fails("<" + (name + WriteAttrs(attrs, gap)), condense, ReadingAttributes)
  {
    hide WriteAttrs, LegalAttrs, Identify, ReadValue, ParseEndTag, ParseAttribute;
    assert gap[0] in gap;
    TagStart(name, attrs, gap, condense, NoError);
    SkipsWhite(gap, "");
    assert gap + "" == gap;
  }

  /** An attribute without an equals sign. */
  lemma NoEquals(name: string, attrs: seq<Attr>, before: string, other: string, w: string, rest: string, condense: bool)
    requires LegalStart(name, attrs, before) && before != "" && LegalName(other) && White(w)
    requires rest != "" && !IsWhite(rest[0]) && rest[0] != '=' && (w == "" ==> !ContinuesName(rest[0]))
    ensures Fails("<" + (name + WriteAttrs(attrs, before + (other + (w + rest)))), condense, ReadingAttributes)
  {
    hide WriteAttrs, LegalAttrs, Identify, ReadValue, ParseEndTag, ParseValue, ParseAttribute;
    var t := other + (w + rest);
    assert before[0] in before;
    TagStart(name, attrs, before + t, condense, NoError);
    assert other[0] in other;
    SkipsWhite(before, t);
    assert before + t != "";
    NameAlone(other, w, rest);
  }

  lemma NameAlone(other: string, w: string, rest: string)
    requires LegalName(other) && White(w)
    requires rest != "" && !IsWhite(rest[0]) && rest[0] != '=' && (w == "" ==> !ContinuesName(rest[0]))
    ensures ParseAttribute(other + (w + rest), NoError) == Parsed(Null, Attribute(other, ""), ReadingAttributes)
  {
    SkipsWhite(w, rest);
    WhiteOrRest(w, rest);
    NameRead(other, w + rest);
    assert other[0] in other;
    hide LegalName, IsSpace;
    assert DropSpaces(other + (w + rest)) == other + (w + rest);
  }

  lemma WhiteOrRest(w: string, rest: string)
    requires White(w) && rest != "" && (w == "" ==> !ContinuesName(rest[0]))
    ensures w + rest != "" && !IsNameChar((w + rest)[0])
  {
    if w == "" {
      assert w + rest == rest;
    } else {
      assert w[0] in w && (w + rest)[0] == w[0];
    }
  }

  // ---------- The end of the text ----------

  /** The text ends in the content of an element: nothing closes it. */
  lemma NoEndTag(name: string, attrs: seq<Attr>, gap: string, items: seq<Item>, w: string, condense: bool)
    requires LegalStart(name, attrs, gap) && LegalItems(items) && White(w)
    ensures Fails(Opened(name, attrs, gap, WriteItems(items, w)), condense,
                  if w == "" then ReadingElementValue else ReadingEndTag)
  {
    hide WriteItems, LegalItems, ReadValue, ParseEndTag, ParseNode, Opened, Identify, LegalStart, WriteMarkup, LegalMarkup;
    var content := WriteItems(items, w);
    OpenedRead(name, attrs, gap, content, condense);
    ReadCutOff(items, w, condense);
    var v := ReadValue(content, condense, NoError);
    NotLiveFails(v.p, Element(name, AttrsMeant(attrs), v.value), v.err);
  }

  lemma NotLiveFails(p: Ptr, node: Node, err: Error)
    requires !Live(p) && node.Element?
    ensures ParseEndTag(p, node, err) == Parsed(Null, node, SetError(err, ReadingEndTag))
  {
  }

  lemma {:induction false} ReadCutOff(items: seq<Item>, w: string, condense: bool)
    requires LegalItems(items) && White(w)
    ensures var r := ReadValue(WriteItems(items, w), condense, NoError);
            !Live(r.p) && r.err == if w == "" then ReadingElementValue else NoError
    decreases items
  {
    hide ReadValue, WriteMarkup, LegalMarkup, WritePieces, LegalPieces, ReadsAs, Meant, TextMeant;
    if items == [] {
      ReadWhiteEnd(w, condense);
    } else {
      var m, rest := items[0].markup, WriteItems(items[1..], w);
      ReadCutOff(items[1..], w, condense);
      MarkupRead(m, rest, condense, NoError);
      MarkupStarts(m, rest);
      ReadRun(items[0].run, WriteMarkup(m, rest), condense, NoError);
      if rest == "" {
        ReadLast(m, condense);
        NothingLeft(items[1..], w);
      } else {
        ReadNext(m, rest, condense, NoError);
      }
    }
  }

  lemma NothingLeft(items: seq<Item>, w: string)
    ensures WriteItems(items, w) == "" ==> w == ""
  {
    if w != "" {
      SomeItems(items, w);
    }
  }

  lemma ReadWhiteEnd(w: string, condense: bool)
    requires White(w)
    ensures var r := ReadValue(w, condense, NoError);
            !Live(r.p) && r.err == if w == "" then ReadingElementValue else NoError
  {
    SkipsWhite(w, "");
    assert w + "" == w;
  }

  lemma ReadLast(m: Markup, condense: bool)
    requires ReadsAs(WriteMarkup(m, ""), m, "", condense, NoError)
    ensures var r := ReadValue(WriteMarkup(m, ""), condense, NoError); !Live(r.p) && r.err == ReadingElementValue
  {
    hide ParseNode, Identify, WriteMarkup, Meant, MatchesTag;
    var s := WriteMarkup(m, "");
    assert DropSpaces(s) == s;
    assert ReadValue("", condense, NoError) == Parsed(Null, [], ReadingElementValue);
  }

  // ---------- No nesting hides an error ----------

  /** Behind any content a fault ends the reading of the value. */
  lemma {:induction false} FaultInContent(items: seq<Item>, run: seq<Piece>, s: string, condense: bool, e: Error)
    requires LegalItems(items) && LegalPieces(run, '<') && Fails(s, condense, e)
    ensures var r := ReadValue(WriteItems(items, WritePieces(run, s)), condense, NoError);
            r.p == Null && r.err == e
    decreases items
  {
    hide ReadValue, WriteMarkup, LegalMarkup, WritePieces, LegalPieces, ReadsAs, Meant, TextMeant, Fails;
    FailsStarts(s, condense, e);
    if items == [] {
      ReadRun(run, s, condense, NoError);
      ReadFault(s, condense, e);
    } else {
      var m, rest := items[0].markup, WriteItems(items[1..], WritePieces(run, s));
      WritesSome(run, '<', s);
      SomeItems(items[1..], WritePieces(run, s));
      FaultInContent(items[1..], run, s, condense, e);
      MarkupRead(m, rest, condense, NoError);
      MarkupStarts(m, rest);
      ReadRun(items[0].run, WriteMarkup(m, rest), condense, NoError);
      ReadNext(m, rest, condense, NoError);
    }
  }

  lemma FailsStarts(s: string, condense: bool, e: Error)
    requires Fails(s, condense, e)
    ensures |s| > 1 && s[0] == '<' && e != NoError
  {
  }

  lemma SomeItems(items: seq<Item>, rest: string)
    requires rest != ""
    ensures WriteItems(items, rest) != ""
  {
    if items != [] {
      var tail := WriteItems(items[1..], rest);
      MarkupStarts(items[0].markup, tail);
      WritesPieces(items[0].run, WriteMarkup(items[0].markup, tail));
    }
  }

  lemma ReadFault(s: string, condense: bool, e: Error)
    requires Fails(s, condense, e)
    ensures var r := ReadValue(s, condense, NoError); r.p == Null && r.err == e
  {
    hide ParseNode, Identify;
    MatchesTagPrefix(s, "</");
    assert DropSpaces(s) == s;
  }

  /** A fault in the content of an element is a fault of the element, with the same error. */
  lemma FaultInElement(name: string, attrs: seq<Attr>, gap: string, items: seq<Item>, run: seq<Piece>, s: string,
                       condense: bool, e: Error)
    requires LegalStart(name, attrs, gap) && LegalItems(items) && LegalPieces(run, '<') && Fails(s, condense, e)
    ensures Fails(Opened(name, attrs, gap, WriteItems(items, WritePieces(run, s))), condense, e)
  {
    hide WriteItems, WritePieces, LegalItems, LegalPieces, ReadValue, ParseEndTag, ParseNode, Opened, Identify, LegalStart,
         Fails;
    var content := WriteItems(items, WritePieces(run, s));
    OpenedRead(name, attrs, gap, content, condense);
    FaultInContent(items, run, s, condense, e);
    FailsStarts(s, condense, e);
    var v := ReadValue(content, condense, NoError);
    NotLiveFails(v.p, Element(name, AttrsMeant(attrs), v.value), v.err);
    FailsBy(Opened(name, attrs, gap, content), condense, e);
  }

  lemma FailsBy(s: string, condense: bool, e: Error)
    requires |s| > 1 && s[0] == '<' && s[1] != '/' && e != NoError
    requires ParseNode(Identify(s), s, condense, NoError).p == Null && ParseNode(Identify(s), s, condense, NoError).err == e
    ensures Fails(s, condense, e)
  {
  }

  /** A fault at the top level of a document, behind any well formed markup, is the error of the document. */
  lemma {:induction false} FaultInTopLevel(doc: seq<Spaced>, gap: string, s: string, condense: bool, e: Error)
    requires LegalDocument(doc) && White(gap) && Fails(s, condense, e)
    ensures WriteDocument(doc, gap + s) != ""
    ensures var r := ParseTopLevel(SkipWhiteSpace(At(WriteDocument(doc, gap + s))), condense, NoError);
            r.value != [] && r.err == e
    decreases |doc|
  {
    hide ParseTopLevel, SkipWhiteSpace, ReadsAs, WriteMarkup, Meant, LegalMarkup, Fails;
    FailsStarts(s, condense, e);
    if doc == [] {
      SkipsWhite(gap, s);
      TopLevelFault(gap + s, s, condense, e);
    } else {
      var m, rest := doc[0].markup, WriteDocument(doc[1..], gap + s);
      MarkupStarts(m, rest);
      MarkupRead(m, rest, condense, NoError);
      SkipsWhite(doc[0].gap, WriteMarkup(m, rest));
      TopLevelStep(m, WriteDocument(doc, gap + s), rest, condense, NoError);
      FaultInTopLevel(doc[1..], gap, s, condense, e);
    }
  }

  lemma TopLevelFault(t: string, s: string, condense: bool, e: Error)
    requires DropSpaces(t) == s && t != "" && Fails(s, condense, e)
    ensures var r := ParseTopLevel(SkipWhiteSpace(At(t)), condense, NoError); r.value != [] && r.err == e
  {
    hide ParseNode, Identify;
  }

  lemma FaultInDocument(doc: seq<Spaced>, gap: string, s: string, condense: bool, e: Error)
    requires LegalDocument(doc) && White(gap) && Fails(s, condense, e)
    ensures ParseDocument(WriteDocument(doc, gap + s), condense).err == e
  {
    hide ParseTopLevel, WriteDocument, LegalDocument, Fails;
    FaultInTopLevel(doc, gap, s, condense, e);
  }

  /** A text without markup in front is no document. */
  lemma NoDocument(w: string, rest: string, condense: bool)
    requires White(w) && (rest == "" || (!IsWhite(rest[0]) && rest[0] != '<'))
    ensures ParseDocument(w + rest, condense) == Parsed(Null, [], DocumentEmpty)
  {
    SkipsWhite(w, rest);
  }
}
