/**
  The TinyXML parser as it runs: pointers into a buffer, loops that advance them, and the error field
  of the document. Every method is tied to the function that says what it reads, and never returns a
  pointer past the terminator.
 */
module XmlParser {
  import L = XmlLex
  import P = XmlParse
  import opened XmlLex
  import opened XmlParse

  const NULL: int := -1

  /** What a loop has appended so far and what it has still to read make up the whole result. */
  ghost predicate Completes<A>(text: string, more: (A, string), whole: (A, string)) {
    more.0 == whole.0 && text + more.1 == whole.1
  }

  lemma CompletesStart<A>(whole: (A, string))
    ensures Completes("", whole, whole)
  {
  }

  lemma CompletesStep<A>(text: string, value: string, end: A, rest: string, whole: (A, string))
    requires Completes(text, (end, value + rest), whole)
    ensures Completes(text + value, (end, rest), whole)
  {
    assert text + value + rest == text + (value + rest);
  }

  ghost function FieldsFrom(p: Ptr, d: Node, err: Error): Parsed<Node>
    requires d.Declaration?
  {
    if p.At? then P.ParseDeclarationFields(p.s, d, err) else Parsed(Null, d, err)
  }

  lemma FieldsStep(s: string, d: Node, err: Error)
    requires d.Declaration? && s != "" && s[0] != '>'
    ensures var (p, e) := DeclarationField(DropSpaces(s), d);
            P.ParseDeclarationFields(s, d, err) == FieldsFrom(p, e, err)
  {
  }

  ghost function ValueFrom(p: Ptr, condense: bool, err: Error): Parsed<seq<Node>> {
    if p.At? then P.ReadValue(p.s, condense, err) else Parsed(Null, [], P.SetError(err, ReadingElementValue))
  }

  lemma ValueStep(s: string, condense: bool, err: Error)
    requires DropSpaces(s) != "" && !L.StringEqual(DropSpaces(s), "</", false)
    ensures var c := P.ReadChild(s, DropSpaces(s), condense, err);
            var more := ValueFrom(c.p, condense, c.err);
            P.ReadValue(s, condense, err) == Parsed(more.p, c.value + more.value, more.err)
  {
    var c := P.ReadChild(s, DropSpaces(s), condense, err);
    assert c.value + [] == c.value;
  }

  ghost predicate CompletesValue(children: seq<Node>, more: Parsed<seq<Node>>, whole: Parsed<seq<Node>>) {
    more.p == whole.p && more.err == whole.err && children + more.value == whole.value
  }

  /** One more child on the way to the whole value. */
  lemma ValueGrows(children: seq<Node>, s: string, condense: bool, err: Error, whole: Parsed<seq<Node>>)
    requires DropSpaces(s) != "" && !L.StringEqual(DropSpaces(s), "</", false)
    requires CompletesValue(children, ValueFrom(At(s), condense, err), whole)
    ensures var c := P.ReadChild(s, DropSpaces(s), condense, err);
            CompletesValue(children + c.value, ValueFrom(c.p, condense, c.err), whole)
  {
    ValueStep(s, condense, err);
    hide P.ReadValue;
    var c := P.ReadChild(s, DropSpaces(s), condense, err);
    var more := ValueFrom(c.p, condense, c.err);
    assert children + (c.value + more.value) == (children + c.value) + more.value;
  }

  /** No more child. */
  lemma ValueEnds(children: seq<Node>, p: Ptr, condense: bool, err: Error, whole: Parsed<seq<Node>>)
    requires CompletesValue(children, ValueFrom(p, condense, err), whole)
    requires var q := L.SkipWhiteSpace(p); q.Null? || q.s == "" || L.StringEqual(q.s, "</", false)
    ensures var q := L.SkipWhiteSpace(p);
            whole == Parsed(q, children, if q.Null? then P.SetError(err, ReadingElementValue) else err)
  {
    assert children + [] == children;
  }

  class Document {
    const buffer: string // the text in front of the terminator
    const condense: bool // the global white space setting
    var error: Error
    var children: seq<Node>

    constructor (text: string, condenseWhiteSpace: bool)
      requires '\0' !in text
      ensures buffer == text && condense == condenseWhiteSpace && error == NoError && children == []
    {
      buffer, condense, error, children := text, condenseWhiteSpace, NoError, [];
    }

    predicate InBuffer(p: int) {
      p == NULL || 0 <= p <= |buffer|
    }

    /** *p, with the terminator at the end. */
    function Char(p: int): char
      requires 0 <= p <= |buffer|
    {
      if p < |buffer| then buffer[p] else '\0'
    }

    function View(p: int): Ptr
      requires InBuffer(p)
    {
      if p == NULL then Null else At(buffer[p..])
    }

    /** p && *p */
    predicate IsLive(p: int)
      requires InBuffer(p)
    {
      p != NULL && p < |buffer|
    }

    method SetError(e: Error)
      modifies this`error
      ensures error == P.SetError(old(error), e)
    {
      if error != NoError {
        return;
      }
      error := e;
    }

    // ---------- Lexical methods ----------

    method SkipWhiteSpace(p: int) returns (q: int)
      requires InBuffer(p)
      ensures InBuffer(q) && View(q) == L.SkipWhiteSpace(View(p))
      ensures q != NULL ==> p <= q
    {
      if !IsLive(p) {
        return NULL;
      }
      q := p;
      while q < |buffer| && IsSpace(buffer[q])
        invariant p <= q <= |buffer|
        invariant DropSpaces(buffer[q..]) == DropSpaces(buffer[p..])
      {
        q := q + 1;
      }
    }

    method StringEqual(p: int, tag: string, ignoreCase: bool) returns (r: bool)
      requires 0 <= p <= |buffer|
      ensures r == L.StringEqual(buffer[p..], tag, ignoreCase)
    {
      if p == |buffer| {
        return false;
      }
      var q, t := p, 0;
      while q < |buffer| && t < |tag| &&
            (if ignoreCase then ToLower(buffer[q]) == ToLower(tag[t]) else buffer[q] == tag[t])
        invariant p <= q <= |buffer| && 0 <= t <= |tag|
        invariant MatchesTag(buffer[q..], tag[t..], ignoreCase) == MatchesTag(buffer[p..], tag, ignoreCase)
      {
        q := q + 1;
        t := t + 1;
      }
      return t == |tag|;
    }

    method ReadName(p: int) returns (q: int, name: string)
      requires InBuffer(p)
      ensures InBuffer(q) && (View(q), name) == L.ReadName(View(p))
      ensures q != NULL ==> p < q
    {
      hide NameLength;
      name := "";
      if IsLive(p) && (IsAlpha(buffer[p]) || buffer[p] == '_') {
        q := p;
        while q < |buffer| && IsNameChar(buffer[q])
          invariant p <= q <= |buffer|
          invariant NameLength(buffer[p..]) == q - p + NameLength(buffer[q..])
        {
          L.NameStep(buffer, q);
          q := q + 1;
        }
        name := buffer[p..q];
        assert buffer[p..][..q - p] == buffer[p..q];
        return;
      }
      return NULL, "";
    }

    /** The digits from q down to the mark at or after low; the loop runs backwards over the buffer. */
    method ReadDigits(low: nat, end: nat, mark: char, base: nat) returns (r: Value)
      requires low < end <= |buffer| && buffer[low] == mark
      ensures r == L.ReadDigits(buffer[low..end], mark, base, 1, 0)
    {
      var q := end - 1;
      var mult: nat, ucs: nat := 1, 0;
      while buffer[q] != mark
        invariant low <= q < end
        invariant L.ReadDigits(buffer[low..q + 1], mark, base, mult, ucs) == L.ReadDigits(buffer[low..end], mark, base, 1, 0)
        decreases q
      {
        ghost var t := buffer[low..q + 1];
        assert t[|t| - 1] == buffer[q] && t[..|t| - 1] == buffer[low..q];
        match DigitOf(buffer[q], base) {
          case Bad => return Bad;
          case Good(d) =>
            ucs := (ucs + mult * d % WORD32) % WORD64;
            mult := mult * base % WORD32;
        }
        q := q - 1;
      }
      assert buffer[low..q + 1][q - low] == mark;
      return Good(ucs);
    }

    method GetEntity(p: int) returns (q: int, value: string)
      requires 0 <= p < |buffer|
      ensures InBuffer(q) && (View(q), value) == L.GetEntity(buffer[p..])
      ensures q != NULL ==> p < q
    {
      hide L.Find, L.ReadDigits;
      ghost var s := buffer[p..];
      if p + 2 < |buffer| && buffer[p + 1] == '#' {
        var hex := buffer[p + 2] == 'x';
        var from := if hex then p + 3 else p + 2;
        assert s[from - p..] == buffer[from..];
        var end := from + L.Find(buffer[from..], ';');
        if end == |buffer| {
          return NULL, "";
        }
        assert s[from - p - 1..end - p] == buffer[from - 1..end];
        var n := ReadDigits(from - 1, end, if hex then 'x' else '#', if hex then 16 else 10);
        match n {
          case Bad => return NULL, "";
          case Good(ucs) => return end + 1, [(ucs % 256) as char];
        }
      }
      var i := 0;
      while i < |ENTITIES|
        invariant 0 <= i <= |ENTITIES|
        invariant EntityAt(s, i) == EntityAt(s, 0)
      {
        if ENTITIES[i].0 <= buffer[p..] {
          return p + |ENTITIES[i].0|, [ENTITIES[i].1];
        }
        i := i + 1;
      }
      return p + 1, "";
    }

    method GetChar(p: int) returns (q: int, value: string)
      requires 0 <= p < |buffer|
      ensures InBuffer(q) && (View(q), value) == L.GetChar(buffer[p..])
      ensures q != NULL ==> p < q
    {
      hide L.GetEntity;
      if buffer[p] == '&' {
        q, value := GetEntity(p);
      } else {
        q, value := p + 1, [buffer[p]];
      }
    }

    // ---------- Text ----------

    method KeepLoop(start: int, endTag: string) returns (p: int, text: string)
      requires 0 <= start <= |buffer|
      ensures InBuffer(p) && (View(p), text) == KeepText(buffer[start..], endTag)
      ensures p != NULL ==> start <= p
    {
      hide L.GetChar, MatchesTag;
      p, text := start, "";
      ghost var whole := KeepText(buffer[start..], endTag);
      CompletesStart(whole);
      while IsLive(p)
        invariant InBuffer(p) && (p != NULL ==> start <= p)
        invariant p == NULL ==> (Null, text) == whole
        invariant p != NULL ==> Completes(text, KeepText(buffer[p..], endTag), whole)
        decreases if p == NULL then -1 else |buffer| - p
      {
        var stop := StringEqual(p, endTag, false);
        if stop {
          break;
        }
        var value;
        ghost var from := p;
        p, value := GetChar(p);
        if p != NULL {
          var more := KeepText(buffer[p..], endTag);
          assert KeepText(buffer[from..], endTag) == (more.0, value + more.1);
          CompletesStep(text, value, more.0, more.1, whole);
        }
        text := text + value;
      }
      assert text + "" == text;
    }

    method CondenseLoop(start: int, endTag: string) returns (p: int, text: string)
      requires 0 <= start <= |buffer|
      ensures InBuffer(p) && (View(p), text) == CondenseText(buffer[start..], endTag, false)
      ensures p != NULL ==> start <= p
    {
      hide L.GetChar, MatchesTag;
      var whitespace := false;
      p, text := start, "";
      ghost var whole := CondenseText(buffer[start..], endTag, false);
      CompletesStart(whole);
      while IsLive(p)
        invariant InBuffer(p) && (p != NULL ==> start <= p)
        invariant p == NULL ==> (Null, text) == whole
        invariant p != NULL ==> Completes(text, CondenseText(buffer[p..], endTag, whitespace), whole)
        decreases if p == NULL then -1 else |buffer| - p
      {
        var stop := StringEqual(p, endTag, false);
        if stop {
          break;
        }
        if IsSpace(buffer[p]) {
          whitespace := true;
          p := p + 1;
        } else {
          ghost var from, space, before := p, if whitespace then " " else "", text;
          ghost var here := CondenseText(buffer[p..], endTag, whitespace);
          if whitespace {
            text := text + " ";
            whitespace := false;
          }
          var value;
          p, value := GetChar(p);
          text := text + value;
          assert text == before + (space + value);
          if p != NULL {
            var more := CondenseText(buffer[p..], endTag, false);
            assert here == (more.0, space + value + more.1);
            CompletesStep(before, space + value, more.0, more.1, whole);
          }
        }
      }
      assert text + "" == text;
    }

    /** stop is where the loop ended; q is behind the end tag, or null. */
    method ReadText(p: int, trim: bool, endTag: string) returns (q: int, text: string, ghost stop: int)
      requires 0 <= p <= |buffer|
      ensures InBuffer(q) && (View(q), text) == L.ReadText(buffer[p..], trim && condense, endTag)
      ensures InBuffer(stop) && (View(stop), text) == TextUpTo(buffer[p..], trim && condense, endTag)
      ensures q != NULL ==> IsLive(stop) && p <= stop && q == stop + |endTag| && q < |buffer|
    {
      hide KeepText, CondenseText, MatchesTag;
      if !trim || !condense {
        q, text := KeepLoop(p, endTag);
      } else {
        q := SkipWhiteSpace(p);
        text := "";
        if q != NULL {
          q, text := CondenseLoop(q, endTag);
        }
      }
      stop := q;
      if IsLive(q) {
        MatchesTagPrefix(buffer[q..], endTag);
        q := q + |endTag|;
      }
      if !IsLive(q) {
        q := NULL;
      }
    }

    /** The loop over a comment or a CDATA section. */
    method ReadVerbatim(start: int, endTag: string) returns (p: int, value: string)
      requires 0 <= start <= |buffer|
      ensures start <= p <= |buffer| && (value, buffer[p..]) == Verbatim(buffer[start..], endTag)
    {
      hide MatchesTag;
      p, value := start, "";
      ghost var whole := Swapped(Verbatim(buffer[start..], endTag));
      CompletesStart(whole);
      while p < |buffer|
        invariant start <= p <= |buffer|
        invariant Completes(value, Swapped(Verbatim(buffer[p..], endTag)), whole)
      {
        var stop := StringEqual(p, endTag, false);
        if stop {
          break;
        }
        ghost var more := Verbatim(buffer[p + 1..], endTag);
        CompletesStep(value, [buffer[p]], more.1, more.0, whole);
        value := value + [buffer[p]];
        p := p + 1;
      }
      assert value + "" == value;
    }

    static ghost function Swapped<A, B>(r: (A, B)): (B, A) {
      (r.1, r.0)
    }

    // ---------- Leaves ----------

    method ParseComment(p: int) returns (q: int, node: Node)
      requires 0 <= p <= |buffer|
      modifies this`error
      ensures InBuffer(q) && Parsed(View(q), node, error) == P.ParseComment(buffer[p..], old(error))
      ensures q != NULL ==> p < q
    {
      hide MatchesTag, Verbatim;
      q := SkipWhiteSpace(p);
      var starts := false;
      if q != NULL {
        starts := StringEqual(q, COMMENT_START, false);
      }
      if !starts {
        SetError(ParsingComment);
        return NULL, Comment("");
      }
      MatchesTagPrefix(buffer[q..], COMMENT_START);
      q := q + |COMMENT_START|;
      var value;
      q, value := ReadVerbatim(q, COMMENT_END);
      node := Comment(value);
      if q < |buffer| {
        MatchesTagPrefix(buffer[q..], COMMENT_END);
        q := q + |COMMENT_END|;
      }
    }

    method ParseUnknown(p: int) returns (q: int, node: Node)
      requires 0 <= p <= |buffer|
      modifies this`error
      ensures InBuffer(q) && Parsed(View(q), node, error) == P.ParseUnknown(buffer[p..], old(error))
      ensures q != NULL ==> p < q
    {
      hide SplitAt;
      q := SkipWhiteSpace(p);
      if !IsLive(q) || buffer[q] != '<' {
        SetError(ParsingUnknown);
        return NULL, Unknown("");
      }
      assert buffer[q..][1..] == buffer[q + 1..];
      var value;
      q, value := ReadTo(q + 1, '>');
      node := Unknown(value);
    }

    /** The characters in front of the first c; q is behind that c. */
    method ReadTo(start: int, c: char) returns (q: int, value: string)
      requires 0 <= start <= |buffer|
      ensures start <= q <= |buffer| && (value, buffer[q..]) == SplitAt(buffer[start..], c)
    {
      hide L.Find;
      q, value := start, "";
      ghost var t := buffer[start..];
      while q < |buffer| && buffer[q] != c
        invariant start <= q <= |buffer|
        invariant L.Find(t, c) == q - start + L.Find(buffer[q..], c)
        invariant value == t[..q - start]
      {
        L.FindStep(buffer, q, c);
        assert t[q - start] == buffer[q];
        value := value + [buffer[q]];
        q := q + 1;
      }
      if q < |buffer| {
        assert t[q - start + 1..] == buffer[q + 1..];
        q := q + 1;
      } else {
        assert buffer[q..] == "";
      }
    }

    method ParseText(p: int, cdata: bool) returns (q: int, node: Node)
      requires 0 <= p <= |buffer|
      modifies this`error
      ensures InBuffer(q) && Parsed(View(q), node, error) == P.ParseText(buffer[p..], cdata, condense, old(error))
      ensures q != NULL ==> p <= q
      ensures q != NULL && (cdata || (p < |buffer| && buffer[p] != '<')) ==> p < q
    {
      hide MatchesTag, Verbatim, TextUpTo;
      var starts := StringEqual(p, CDATA_START, false);
      if cdata || starts {
        if !starts {
          SetError(ParsingCData);
          return NULL, Text("", true);
        }
        MatchesTagPrefix(buffer[p..], CDATA_START);
        var value, dummy;
        q, value := ReadVerbatim(p + |CDATA_START|, CDATA_END);
        ghost var stop;
        q, dummy, stop := ReadText(q, false, CDATA_END);
        return q, Text(value, true);
      }
      var value;
      ghost var stop;
      q, value, stop := ReadText(p, true, "<");
      if q != NULL {
        MatchesTagPrefix(buffer[stop..], "<");
        return q - 1, Text(value, false);
      }
      if IsLive(stop) {
        MatchesTagPrefix(buffer[stop..], "<");
      }
      return NULL, Text(value, false);
    }

    // ---------- Attributes and declarations ----------

    /** The attributes of a declaration do not know the document and report nothing. */
    method ReportAttribute(report: bool)
      modifies this`error
      ensures error == if report then P.SetError(old(error), ReadingAttributes) else old(error)
    {
      if report {
        SetError(ReadingAttributes);
      }
    }

    /** The scan of an attribute value without quotes. */
    method ParseBareValue(start: int, name: string, report: bool) returns (p: int, a: Attribute)
      requires 0 <= start <= |buffer|
      modifies this`error
      ensures InBuffer(p)
      ensures AttributeResult(p, a, report, P.ParseBareValue(buffer[start..], name, old(error)), error, old(error))
      ensures p != NULL ==> start <= p
    {
      p := start;
      var value := "";
      hide Span;
      ghost var t := buffer[start..];
      while p < |buffer| && !EndsBareValue(buffer[p])
        invariant start <= p <= |buffer|
        invariant value == buffer[start..p] == t[..p - start] && error == old(error)
        invariant Span(t, StopsBareValue) == p - start + Span(buffer[p..], StopsBareValue)
      {
        if buffer[p] == '\'' || buffer[p] == '\"' {
          L.SpanEnds(buffer, p, StopsBareValue);
          assert t[p - start] == buffer[p];
          ReportAttribute(report);
          return NULL, Attribute(name, value);
        }
        L.SpanStep(buffer, p, StopsBareValue);
        value := value + [buffer[p]];
        p := p + 1;
      }
      L.SpanEnds(buffer, p, StopsBareValue);
      assert t[p - start..] == buffer[p..];
      a := Attribute(name, value);
    }

    ghost predicate AttributeResult(p: int, a: Attribute, report: bool, r: Parsed<Attribute>, now: Error, before: Error)
      requires InBuffer(p)
    {
      View(p) == r.p && a == r.value && now == if report then r.err else before
    }

    method ParseAttribute(p: int, report: bool) returns (q: int, a: Attribute)
      requires 0 <= p <= |buffer|
      modifies this`error
      ensures InBuffer(q) && AttributeResult(q, a, report, P.ParseAttribute(buffer[p..], old(error)), error, old(error))
      ensures q != NULL ==> p < q
    {
      hide P.ParseEquals, L.ReadName;
      q := SkipWhiteSpace(p);
      if !IsLive(q) {
        return NULL, Attribute("", "");
      }
      var name;
      q, name := ReadName(q);
      q, a := ParseEquals(q, name, report);
    }

    method ParseEquals(p: int, name: string, report: bool) returns (q: int, a: Attribute)
      requires InBuffer(p)
      modifies this`error
      ensures InBuffer(q) && AttributeResult(q, a, report, P.ParseEquals(View(p), name, old(error)), error, old(error))
      ensures q != NULL ==> p != NULL && p < q
    {
      hide P.ParseValue;
      if !IsLive(p) {
        ReportAttribute(report);
        return NULL, Attribute(name, "");
      }
      q := SkipWhiteSpace(p);
      if !IsLive(q) || buffer[q] != '=' {
        ReportAttribute(report);
        return NULL, Attribute(name, "");
      }
      q, a := ParseValue(q + 1, name, report);
    }

    method ParseValue(p: int, name: string, report: bool) returns (q: int, a: Attribute)
      requires 0 <= p <= |buffer|
      modifies this`error
      ensures InBuffer(q) && AttributeResult(q, a, report, P.ParseValue(buffer[p..], name, old(error)), error, old(error))
      ensures q != NULL ==> p <= q
    {
      hide L.ReadText, P.ParseBareValue;
      q := SkipWhiteSpace(p);
      if !IsLive(q) {
        ReportAttribute(report);
        return NULL, Attribute(name, "");
      }
      if buffer[q] == '\'' || buffer[q] == '\"' {
        var quote := [buffer[q]];
        var value;
        ghost var stop;
        q, value, stop := ReadText(q + 1, false, quote);
        return q, Attribute(name, value);
      }
      q, a := ParseBareValue(q, name, report);
    }

    method ParseDeclaration(p: int) returns (q: int, node: Node)
      requires 0 <= p <= |buffer|
      modifies this`error
      ensures InBuffer(q) && Parsed(View(q), node, error) == P.ParseDeclaration(buffer[p..], old(error))
      ensures q != NULL ==> p < q
    {
      q := SkipWhiteSpace(p);
      var starts := false;
      if IsLive(q) {
        starts := StringEqual(q, "<?xml", true);
      }
      if !starts {
        SetError(ParsingDeclaration);
        return NULL, Declaration("", "", "");
      }
      MatchesTagLength(buffer[q..], "<?xml", true);
      assert buffer[q..][5..] == buffer[q + 5..];
      q, node := ParseDeclarationFields(q + 5);
    }

    method ParseDeclarationFields(start: int) returns (p: int, d: Node)
      requires 0 <= start <= |buffer|
      modifies this`error
      ensures InBuffer(p)
      ensures Parsed(View(p), d, error) == P.ParseDeclarationFields(buffer[start..], Declaration("", "", ""), old(error))
      ensures p != NULL ==> start < p
    {
      hide DeclarationField;
      p := start;
      d := Declaration("", "", "");
      ghost var whole := P.ParseDeclarationFields(buffer[start..], d, error);
      while IsLive(p)
        invariant InBuffer(p) && (p != NULL ==> start <= p) && d.Declaration? && error == old(error)
        invariant FieldsFrom(View(p), d, error) == whole
        decreases if p == NULL then -1 else |buffer| - p
      {
        if buffer[p] == '>' {
          return p + 1, d;
        }
        FieldsStep(buffer[p..], d, error);
        p := SkipWhiteSpace(p);
        p, d := ParseField(p, d);
      }
      p := NULL;
    }

    method ParseField(start: int, d: Node) returns (p: int, e: Node)
      requires 0 <= start <= |buffer| && d.Declaration?
      modifies this`error
      ensures InBuffer(p) && error == old(error) && (View(p), e) == DeclarationField(buffer[start..], d)
      ensures p != NULL ==> start <= p
    {
      hide P.ParseAttribute, CStr, MatchesTag;
      var version := StringEqual(start, "version", true);
      var encoding := StringEqual(start, "encoding", true);
      var standalone := StringEqual(start, "standalone", true);
      if version || encoding || standalone {
        AttributeIgnoresError(buffer[start..], error);
        var a;
        p, a := ParseAttribute(start, false);
        var value := CStr(a.value);
        e := if version then d.(version := value) else if encoding then d.(encoding := value)
             else d.(standalone := value);
      } else {
        p := SkipField(start);
        e := d;
      }
    }

    method SkipField(start: int) returns (p: int)
      requires 0 <= start <= |buffer|
      ensures start <= p <= |buffer| && p == start + Span(buffer[start..], StopsField)
    {
      p := start;
      hide Span;
      while p < |buffer| && buffer[p] != '>' && !IsSpace(buffer[p])
        invariant start <= p <= |buffer|
        invariant Span(buffer[start..], StopsField) == p - start + Span(buffer[p..], StopsField)
      {
        L.SpanStep(buffer, p, StopsField);
        p := p + 1;
      }
      L.SpanEnds(buffer, p, StopsField);
    }

    // ---------- Elements ----------

    method Identify(p: int) returns (kind: Kind)
      requires 0 <= p < |buffer| && buffer[p] == '<'
      ensures kind == P.Identify(buffer[p..])
    {
      hide MatchesTag;
      var xml := StringEqual(p, "<?xml", true);
      var comment := StringEqual(p, COMMENT_START, false);
      var cdata := StringEqual(p, CDATA_START, false);
      var dtd := StringEqual(p, "<!", false);
      if xml {
        return DeclarationKind;
      } else if comment {
        return CommentKind;
      } else if cdata {
        return CDataKind;
      } else if dtd {
        return UnknownKind;
      } else if p + 1 < |buffer| && (IsAlpha(buffer[p + 1]) || buffer[p + 1] == '_') {
        return ElementKind;
      } else {
        return UnknownKind;
      }
    }

    /** node->Parse for the node that Identify made. */
    method ParseNode(kind: Kind, p: int) returns (q: int, node: Node)
      requires 0 <= p <= |buffer|
      modifies this`error
      ensures InBuffer(q) && Parsed(View(q), node, error) == P.ParseNode(kind, buffer[p..], condense, old(error))
      ensures q != NULL ==> p < q
      decreases |buffer| - p, 2
    {
      match kind {
        case ElementKind => q, node := ParseElement(p);
        case CDataKind => q, node := ParseText(p, true);
        case CommentKind => q, node := ParseComment(p);
        case UnknownKind => q, node := ParseUnknown(p);
        case DeclarationKind => q, node := ParseDeclaration(p);
      }
    }

    method ParseElement(p: int) returns (q: int, node: Node)
      requires 0 <= p <= |buffer|
      modifies this`error
      ensures InBuffer(q) && Parsed(View(q), node, error) == P.ParseElement(buffer[p..], condense, old(error))
      ensures q != NULL ==> p < q
      decreases |buffer| - p, 1
    {
      hide P.ParseTag, L.ReadName;
      q := SkipWhiteSpace(p);
      if !IsLive(q) || buffer[q] != '<' {
        SetError(ParsingElement);
        return NULL, Element("", [], []);
      }
      q := SkipWhiteSpace(q + 1);
      var name;
      q, name := ReadName(q);
      if !IsLive(q) {
        SetError(FailedToReadElementName);
        return NULL, Element(name, [], []);
      }
      q, node := ParseTag(q, name);
    }

    /** The attribute loop, the content and the end tag. */
    method ParseTag(start: int, name: string) returns (p: int, node: Node)
      requires 0 <= start < |buffer|
      modifies this`error
      ensures InBuffer(p) && Parsed(View(p), node, error) == P.ParseTag(buffer[start..], name, [], condense, old(error))
      ensures p != NULL ==> start < p
      decreases |buffer| - start, 1
    {
      p := start;
      var attributes := [];
      ghost var whole := P.ParseTag(buffer[start..], name, [], condense, error);
      while true
        invariant start <= p < |buffer|
        invariant P.ParseTag(buffer[p..], name, attributes, condense, error) == whole
        decreases |buffer| - p
      {
        p := SkipWhiteSpace(p);
        if !IsLive(p) {
          SetError(ReadingAttributes);
          return NULL, Element(name, attributes, []);
        }
        if buffer[p] == '/' || buffer[p] == '>' {
          p, node := EndStartTag(p, name, attributes);
          return;
        }
        var a;
        p, a := ParseAttribute(p, true);
        if !IsLive(p) || HasAttribute(attributes, a.name) {
          SetError(ParsingElement);
          return NULL, Element(name, attributes, []);
        }
        attributes := attributes + [a];
      }
    }

    /** The end of a start tag: an empty element, or the content and the end tag. */
    method EndStartTag(p: int, name: string, attributes: seq<Attribute>) returns (q: int, node: Node)
      requires 0 <= p < |buffer| && (buffer[p] == '/' || buffer[p] == '>')
      modifies this`error
      ensures InBuffer(q) && (q != NULL ==> p < q)
      ensures Parsed(View(q), node, error) == P.ParseTag(buffer[p..], name, attributes, condense, old(error))
      decreases |buffer| - p, 0
    {
      hide P.ReadValue, P.ParseEndTag;
      assert DropSpaces(buffer[p..]) == buffer[p..];
      if buffer[p] == '/' {
        q, node := ParseEmptyTag(p, Element(name, attributes, []));
      } else {
        var children;
        q, children := ReadValue(p + 1);
        q, node := ParseEndTag(q, Element(name, attributes, children));
      }
    }

    method ParseEmptyTag(p: int, node: Node) returns (q: int, r: Node)
      requires 0 <= p < |buffer| && buffer[p] == '/'
      modifies this`error
      ensures r == node && InBuffer(q) && (q != NULL ==> p < q)
      ensures if p + 1 < |buffer| && buffer[p + 1] == '>' then q == p + 2 && error == old(error)
              else q == NULL && error == P.SetError(old(error), ParsingEmpty)
    {
      if Char(p + 1) != '>' || p + 1 == |buffer| {
        SetError(ParsingEmpty);
        return NULL, node;
      }
      return p + 2, node;
    }

    method ParseEndTag(p: int, node: Node) returns (q: int, r: Node)
      requires InBuffer(p) && node.Element?
      modifies this`error
      ensures InBuffer(q) && Parsed(View(q), r, error) == P.ParseEndTag(View(p), node, old(error))
      ensures q != NULL ==> p != NULL && p < q
    {
      var endTag := "</" + node.name;
      if !IsLive(p) {
        SetError(ReadingEndTag);
        return NULL, node;
      }
      var found := StringEqual(p, endTag, false);
      r := node;
      q := NULL;
      if found {
        MatchesTagPrefix(buffer[p..], endTag);
        q := BehindEndTag(p, p + |endTag|);
      }
      if q == NULL {
        SetError(ReadingEndTag);
      }
    }

    method BehindEndTag(start: int, p: int) returns (q: int)
      requires 0 <= start <= p <= |buffer|
      ensures InBuffer(q) && (q != NULL ==> p < q)
      ensures var t := L.SkipWhiteSpace(At(buffer[start..][p - start..]));
              View(q) == if Live(t) && t.s[0] == '>' then At(t.s[1..]) else Null
    {
      assert buffer[start..][p - start..] == buffer[p..];
      q := SkipWhiteSpace(p);
      if IsLive(q) && buffer[q] == '>' {
        return q + 1;
      }
      return NULL;
    }

    method ReadChild(pWithWhiteSpace: int, p: int) returns (q: int, child: seq<Node>)
      requires 0 <= pWithWhiteSpace <= p < |buffer| && buffer[p..] == DropSpaces(buffer[pWithWhiteSpace..])
      modifies this`error
      ensures InBuffer(q)
      ensures Parsed(View(q), child, error) == P.ReadChild(buffer[pWithWhiteSpace..], buffer[p..], condense, old(error))
      ensures q != NULL ==> pWithWhiteSpace < q
      decreases |buffer| - p, 3
    {
      hide P.ParseNode, P.ParseText, P.Identify;
      var node;
      if buffer[p] != '<' {
        NotMarkup(buffer[pWithWhiteSpace..]);
        q, node := ParseText(if condense then p else pWithWhiteSpace, false);
        return q, if IsBlank(node.value) then [] else [node];
      } else {
        var kind := Identify(p);
        q, node := ParseNode(kind, p);
        return q, [node];
      }
    }

    /** The content of an element. The source appends each child to the element; here they are returned. */
    method ReadValue(start: int) returns (p: int, children: seq<Node>)
      requires 0 <= start <= |buffer|
      modifies this`error
      ensures InBuffer(p) && Parsed(View(p), children, error) == P.ReadValue(buffer[start..], condense, old(error))
      ensures p != NULL ==> start <= p
      decreases |buffer| - start, 4
    {
      hide P.ReadChild, P.ReadValue;
      children := [];
      var pWithWhiteSpace := start;
      ghost var whole := P.ReadValue(buffer[start..], condense, error);
      assert CompletesValue(children, ValueFrom(View(start), condense, error), whole);
      hide CompletesValue, ValueFrom;
      p := SkipWhiteSpace(start);
      while IsLive(p)
        invariant InBuffer(p) && InBuffer(pWithWhiteSpace)
        invariant pWithWhiteSpace != NULL ==> start <= pWithWhiteSpace
        invariant p != NULL ==> pWithWhiteSpace != NULL && pWithWhiteSpace <= p
        invariant View(p) == L.SkipWhiteSpace(View(pWithWhiteSpace))
        invariant CompletesValue(children, ValueFrom(View(pWithWhiteSpace), condense, error), whole)
        decreases if p == NULL then -1 else |buffer| - pWithWhiteSpace
      {
        var end := StringEqual(p, "</", false);
        if end {
          ValueEnds(children, View(pWithWhiteSpace), condense, error, whole);
          return;
        }
        ValueGrows(children, buffer[pWithWhiteSpace..], condense, error, whole);
        var child;
        p, child := ReadChild(pWithWhiteSpace, p);
        children := children + child;
        pWithWhiteSpace := p;
        p := SkipWhiteSpace(p);
      }
      ValueEnds(children, View(pWithWhiteSpace), condense, error, whole);
      if p == NULL {
        SetError(ReadingElementValue);
      }
    }

    // ---------- The document ----------

    /** Parse the whole buffer: the nodes become the children of the document. */
    method Parse() returns (p: int)
      requires children == []
      modifies this
      ensures InBuffer(p) && Parsed(View(p), children, error) == P.ParseDocument(buffer, condense)
    {
      error := NoError;
      if buffer == "" {
        SetError(DocumentEmpty);
        return NULL;
      }
      assert buffer[0..] == buffer;
      p := SkipWhiteSpace(0);
      p, children := ParseTopLevel(p);
      if children == [] {
        SetError(DocumentEmpty);
        return NULL;
      }
    }

    /** The loop over the top level; it stops at the first thing that is no markup. */
    method ParseTopLevel(start: int) returns (p: int, nodes: seq<Node>)
      requires InBuffer(start)
      modifies this`error
      ensures InBuffer(p) && Parsed(View(p), nodes, error) == P.ParseTopLevel(View(start), condense, old(error))
    {
      hide P.ParseNode, P.Identify;
      p, nodes := start, [];
      ghost var whole := P.ParseTopLevel(View(start), condense, error);
      while IsLive(p) && buffer[p] == '<'
        invariant InBuffer(p)
        invariant CompletesValue(nodes, P.ParseTopLevel(View(p), condense, error), whole)
        decreases if p == NULL then -1 else |buffer| - p
      {
        ghost var before := nodes;
        var kind := Identify(p);
        var node;
        p, node := ParseNode(kind, p);
        nodes := nodes + [node];
        p := SkipWhiteSpace(p);
        ghost var more := P.ParseTopLevel(View(p), condense, error).value;
        assert nodes + more == before + ([node] + more);
      }
      assert nodes + [] == nodes;
    }
  }

  lemma ValueIgnoresError(s: string, name: string, err: Error)
    ensures P.ParseValue(s, name, err).p == P.ParseValue(s, name, NoError).p
    ensures P.ParseValue(s, name, err).value == P.ParseValue(s, name, NoError).value
  {
  }

  lemma AttributeIgnoresError(s: string, err: Error)
    ensures P.ParseAttribute(s, err).p == P.ParseAttribute(s, NoError).p
    ensures P.ParseAttribute(s, err).value == P.ParseAttribute(s, NoError).value
  {
    var start := L.SkipWhiteSpace(At(s));
    if Live(start) {
      var (afterName, name) := L.ReadName(start);
      var equals := L.SkipWhiteSpace(afterName);
      if Live(equals) {
        ValueIgnoresError(equals.s[1..], name, err);
      }
    }
  }
}
