/** Reading back what EncodeString wrote. */
module XmlTextRoundTrip {
  import opened Concat
  import opened XmlLex
  import opened XmlPrint

  /** The text has no "&#x", which EncodeString passes through unchanged. */
  ghost predicate NoReference(v: string) {
    forall i :: 0 <= i <= |v| ==> !(HEX_REFERENCE <= v[i..])
  }

  lemma EncodeStep(v: string)
    requires v != "" && NoReference(v)
    ensures Encode(v) == EncodeChar(v[0]) + Encode(v[1..]) && NoReference(v[1..])
  {
    assert v[0..] == v;
    forall i | 0 <= i <= |v[1..]|
      ensures !(HEX_REFERENCE <= v[1..][i..])
    {
      assert v[1..][i..] == v[i + 1..];
    }
  }

  lemma {:induction false} FindAfter(s: string, c: char, rest: string)
    requires c !in s
    ensures Find(s + [c] + rest, c) == |s|
  {
    if s == "" {
    } else {
      FindAfter(s[1..], c, rest);
      assert (s + [c] + rest)[1..] == s[1..] + [c] + rest;
    }
  }

  lemma HexDigitRead(d: nat)
    requires d < 16
    ensures DigitOf(HexDigit(d), 16) == Good(d) && HexDigit(d) != 'x' && DigitOf('x', 16).Bad?
  {
  }

  lemma ReadLastDigit(front: string, c: char, d: nat, mult: nat, ucs: nat)
    requires DigitOf(c, 16) == Good(d) && c != 'x'
    ensures ReadDigits(front + [c], 'x', 16, mult, ucs)
         == ReadDigits(front, 'x', 16, mult * 16 % WORD32, (ucs + mult * d % WORD32) % WORD64)
  {
    hide DigitOf;
    assert (front + [c])[..|front|] == front;
  }

  lemma ReadMark(mult: nat, ucs: nat)
    ensures ReadDigits(['x'], 'x', 16, mult, ucs) == Good(ucs)
  {
  }

  /** The two hexadecimal digits of a character below 32 read back as its number. */
  lemma ReadTwoDigits(c: char)
    requires c as int < 32
    ensures ReadDigits(['x', HexDigit(c as int / 16), HexDigit(c as int % 16)], 'x', 16, 1, 0) == Good(c as int)
  {
    hide ReadDigits, HexDigit, DigitOf;
    var h, l := HexDigit(c as int / 16), HexDigit(c as int % 16);
    HexDigitRead(c as int / 16);
    HexDigitRead(c as int % 16);
    assert ['x', h, l] == ['x', h] + [l] && ['x', h] == ['x'] + [h];
    ReadLastDigit(['x', h], l, c as int % 16, 1, 0);
    ReadLastDigit(['x'], h, c as int / 16, 16, c as int % 16);
    ReadMark(256, c as int);
  }

  lemma GetCharOfReference(c: char, rest: string)
    requires c as int < 32
    ensures GetChar(EncodeChar(c) + rest) == (At(rest), [c])
  {
    var h, l := HexDigit(c as int / 16), HexDigit(c as int % 16);
    var s := EncodeChar(c) + rest;
    assert s == ['&', '#', 'x', h, l, ';'] + rest;
    assert h != ';' && l != ';';
    assert s[3..] == [h, l] + [';'] + rest;
    FindAfter([h, l], ';', rest);
    assert s[2..5] == ['x', h, l];
    ReadTwoDigits(c);
    assert s[6..] == rest;
    assert NumericReference(s) == (At(rest), Good(c as int));
  }

  lemma GetCharOfEntity(i: nat, rest: string)
    requires i < |ENTITIES|
    ensures GetChar(ENTITIES[i].0 + rest) == (At(rest), [ENTITIES[i].1])
  {
    var s := ENTITIES[i].0 + rest;
    assert s[1] == ENTITIES[i].0[1];
    forall j | 0 <= j < i
      ensures !(ENTITIES[j].0 <= s)
    {
      assert s[2] == ENTITIES[i].0[2];
    }
    FirstEntity(s, 0, i);
    assert s[|ENTITIES[i].0|..] == rest;
  }

  lemma {:induction false} FirstEntity(s: string, from: nat, i: nat)
    requires from <= i < |ENTITIES| && ENTITIES[i].0 <= s
    requires forall j :: from <= j < i ==> !(ENTITIES[j].0 <= s)
    ensures EntityAt(s, from) == i
    decreases i - from
  {
    if from == i {
    } else {
      FirstEntity(s, from + 1, i);
    }
  }

  /** GetChar undoes the code of every character, whatever follows. */
  lemma GetCharOfCode(c: char, rest: string)
    ensures GetChar(EncodeChar(c) + rest) == (At(rest), [c])
  {
    if c == '&' {
      GetCharOfEntity(0, rest);
    } else if c == '<' {
      GetCharOfEntity(1, rest);
    } else if c == '>' {
      GetCharOfEntity(2, rest);
    } else if c == '\"' {
      GetCharOfEntity(3, rest);
    } else if c == '\'' {
      GetCharOfEntity(4, rest);
    } else if c as int < 32 {
      GetCharOfReference(c, rest);
    } else {
      assert (EncodeChar(c) + rest)[1..] == rest;
    }
  }

  // ---------- Whole texts ----------

  predicate IsEndTag(e: char) {
    e == '<' || e == '\"' || e == '\''
  }

  lemma CodeStart(c: char)
    ensures !IsEndTag(EncodeChar(c)[0]) && (IsSpace(EncodeChar(c)[0]) <==> c == ' ')
  {
  }

  lemma AtEndTag(s: string, e: char)
    requires s != ""
    ensures StringEqual(s, [e], false) <==> s[0] == e
  {
    MatchesTagPrefix(s, [e]);
  }

  /** Reading one coded character: t is what remains. */
  ghost predicate Yields(s: string, c: char, t: string) {
    && s != "" && !IsEndTag(s[0]) && (IsSpace(s[0]) <==> c == ' ')
    && GetChar(s) == (At(t), [c])
    && (c == ' ' ==> s[1..] == t)
  }

  lemma CodeYields(c: char, rest: string)
    ensures Yields(EncodeChar(c) + rest, c, rest)
  {
    CodeStart(c);
    GetCharOfCode(c, rest);
    assert (EncodeChar(c) + rest)[0] == EncodeChar(c)[0];
    if c == ' ' {
      assert (EncodeChar(c) + rest)[1..] == rest;
    }
  }

  /** The encoded text with whatever follows it yields the text's first character. */
  lemma EncodedStep(v: string, tail: string)
    requires v != "" && NoReference(v)
    ensures NoReference(v[1..]) && Yields(Encode(v) + tail, v[0], Encode(v[1..]) + tail)
  {
    EncodeStep(v);
    CodeYields(v[0], Encode(v[1..]) + tail);
    Regroup(EncodeChar(v[0]), Encode(v[1..]), tail);
  }

  /** Keeping white space: the encoded text reads back as itself, up to the end tag and whatever follows it. */
  lemma {:induction false} KeepTextOfEncoded(v: string, e: char, rest: string)
    requires NoReference(v) && IsEndTag(e)
    ensures KeepText(Encode(v) + ([e] + rest), [e]) == (At([e] + rest), v)
  {
    var s := Encode(v) + ([e] + rest);
    AtEndTag(s, e);
    if v == "" {
      assert s == [e] + rest;
    } else {
      EncodedStep(v, [e] + rest);
      KeepTextOfEncoded(v[1..], e, rest);
      assert v == [v[0]] + v[1..];
    }
  }

  // ---------- Texts with a literal reference ----------

  /** The part passed through holds no semicolon, and ends in front of one or of the last character. */
  lemma {:induction false} PassThroughStops(v: string, i: nat)
    requires i < |v|
    ensures forall j :: i <= j < PassThrough(v, i) && j > 0 ==> v[j] != ';'
    ensures PassThrough(v, i) + 1 == |v| || v[PassThrough(v, i)] == ';'
    decreases |v| - i
  {
    if i + 1 == |v| || (i > 0 && v[i] == ';') {
    } else {
      PassThroughStops(v, i + 1);
    }
  }

  lemma {:induction false} FindFirst(s: string, c: char, k: nat)
    requires k < |s| && s[k] == c && c !in s[..k]
    ensures Find(s, c) == k
  {
    if k == 0 {
    } else {
      assert s[0] == s[..k][0];
      assert s[1..][..k - 1] == s[..k][1..];
      FindFirst(s[1..], c, k - 1);
    }
  }

  lemma CodeEndsInSemicolon(c: char)
    ensures forall j :: 0 <= j < |EncodeChar(c)| - 1 ==> EncodeChar(c)[j] != ';'
  {
  }

  lemma ReferenceTail(v: string)
    requires HEX_REFERENCE <= v
    ensures var k := PassThrough(v, 0);
            && 2 <= k < |v| && (v[k] == ';' ==> k >= 3)
            && Encode(v) == v[..k] + (EncodeChar(v[k]) + Encode(v[k + 1..]))
            && (v[k] != ';' ==> v[k + 1..] == "")
  {
    var k := PassThrough(v, 0);
    PassThroughStops(v, 0);
    assert v[k..][0] == v[k] && v[k..][1..] == v[k + 1..];
    assert v[k] == ';' || |v[k..]| == 1;
  }

  /** The marker of a passed-through reference stands in front of its code. */
  lemma ReferenceHead(v: string, k: nat, code: string, rest: string)
    requires HEX_REFERENCE <= v && 2 <= k < |v| && |code| >= 1 && (k == 2 ==> code[0] == v[2])
    ensures var s := v[..k] + (code + rest);
            |s| >= 3 && s[..3] == HEX_REFERENCE
  {
    var s := v[..k] + (code + rest);
    assert s[0] == v[0] && s[1] == v[1] && (k > 2 ==> s[2] == v[2]) && (k == 2 ==> s[2] == code[0]);
  }

  /** The semicolon behind the part passed through is the first one. */
  lemma StopsAtSemicolon(v: string, k: nat, rest: string)
    requires 3 <= k < |v| && forall j :: 0 < j < k ==> v[j] != ';'
    ensures var s := v[..k] + ([';'] + rest);
            3 + Find(s[3..], ';') == k && s[k + 1..] == rest
  {
    var s := v[..k] + ([';'] + rest);
    assert s[3..][k - 3] == s[k] == ';';
    assert s[3..][..k - 3] == v[3..k];
    FindFirst(s[3..], ';', k - 3);
  }

  /** Where the semicolon of a passed-through reference is found. */
  lemma ReferenceEnd(v: string, tail: string)
    requires HEX_REFERENCE <= v
    ensures |Encode(v) + tail| >= 3
    ensures var (s, k) := (Encode(v) + tail, PassThrough(v, 0));
            var end := 3 + Find(s[3..], ';');
            && s[..3] == HEX_REFERENCE
            && (end < |s| && v[k] == ';' ==> s[end + 1..] == Encode(v[k + 1..]) + tail)
            && (end < |s| && v[k] != ';' ==> s[end + 1..] == tail || |s[end + 1..]| < |tail|)
  {
    hide Encode, EncodeChar, Find, PassThrough;
    var s, k := Encode(v) + tail, PassThrough(v, 0);
    PassThroughStops(v, 0);
    ReferenceTail(v);
    XIsItself();
    var code, more := EncodeChar(v[k]), Encode(v[k + 1..]);
    assert s == v[..k] + (code + (more + tail));
    CodeEndsInSemicolon(v[k]);
    ReferenceHead(v, k, code, more + tail);
    if v[k] == ';' {
      SemicolonIsItself();
      StopsAtSemicolon(v, k, more + tail);
    } else {
      EncodeNothing();
      assert more + tail == tail;
      StopsAtTheEnd(s, v[..k], code, tail);
    }
  }

  lemma XIsItself()
    ensures EncodeChar('x') == "x"
  {
  }

  lemma SemicolonIsItself()
    ensures EncodeChar(';') == ";"
  {
  }

  lemma EncodeNothing()
    ensures Encode("") == ""
  {
  }

  /** With no semicolon in the part passed through, one is found at the end of the last code or behind it. */
  lemma StopsAtTheEnd(s: string, head: string, code: string, tail: string)
    requires s == head + (code + tail) && |head| >= 2 && |head| + |code| >= 3
    requires forall j :: 1 <= j < |head| ==> head[j] != ';'
    requires forall j :: 0 <= j < |code| - 1 ==> code[j] != ';'
    ensures var end := 3 + Find(s[3..], ';');
            end < |s| ==> s[end + 1..] == tail || |s[end + 1..]| < |tail|
  {
    var end := 3 + Find(s[3..], ';');
    forall j | 1 <= j < |head| + |code| - 1
      ensures s[j] != ';'
    {
      assert s[j] == if j < |head| then head[j] else code[j - |head|];
    }
    assert s[|head| + |code|..] == tail;
    assert end < |s| ==> s[end] == s[3..][end - 3];
  }

  /** Nothing that is read back up to the end tag is longer than the original, and a reference makes it shorter. */
  ghost predicate Shrinks(v: string, e: char, rest: string) {
    var (p, text) := KeepText(Encode(v) + ([e] + rest), [e]);
    p == At([e] + rest) ==> |text| <= |v| && (!NoReference(v) ==> |text| < |v|)
  }

  lemma {:induction false} KeepTextShrinks(v: string, e: char, rest: string)
    requires IsEndTag(e)
    ensures Shrinks(v, e, rest)
    decreases |v|
  {
    hide Encode, Shrinks;
    if v == "" {
      NothingShrinks(e, rest);
    } else if HEX_REFERENCE <= v {
      var k := PassThrough(v, 0);
      PassThroughStops(v, 0);
      if v[k] == ';' {
        KeepTextShrinks(v[k + 1..], e, rest);
      }
      ReferenceShrinks(v, e, rest);
    } else {
      KeepTextShrinks(v[1..], e, rest);
      PlainShrinks(v, e, rest);
    }
  }

  lemma NothingShrinks(e: char, rest: string)
    requires IsEndTag(e)
    ensures Shrinks("", e, rest)
  {
    AtEndTag([e] + rest, e);
    assert "" + ([e] + rest) == [e] + rest;
  }

  lemma PlainShrinks(v: string, e: char, rest: string)
    requires IsEndTag(e) && v != "" && !(HEX_REFERENCE <= v) && Shrinks(v[1..], e, rest)
    ensures Shrinks(v, e, rest)
  {
    hide Encode, NoReference;
    PlainStep(v, [e] + rest);
    AtEndTag(Encode(v) + ([e] + rest), e);
  }

  lemma ReferenceShrinks(v: string, e: char, rest: string)
    requires IsEndTag(e) && HEX_REFERENCE <= v
    requires var k := PassThrough(v, 0); v[k] == ';' ==> Shrinks(v[k + 1..], e, rest)
    ensures Shrinks(v, e, rest)
  {
    hide Encode, KeepText, PassThrough, NoReference, Find;
    var s, tail := Encode(v) + ([e] + rest), [e] + rest;
    ReferenceEnd(v, tail);
    ReferenceTail(v);
    ReadReference(s, e);
    StopsAtOnce(e, rest);
  }

  lemma StopsAtOnce(e: char, rest: string)
    requires IsEndTag(e)
    ensures KeepText([e] + rest, [e]) == (At([e] + rest), "")
  {
    AtEndTag([e] + rest, e);
  }

  lemma GetReference(s: string)
    requires |s| >= 3 && s[..3] == HEX_REFERENCE
    ensures var (p, c) := GetChar(s);
            var end := 3 + Find(s[3..], ';');
            p.At? ==> end < |s| && p == At(s[end + 1..]) && |c| == 1
  {
    hide ReadDigits, Find;
    assert s[0] == s[..3][0] && s[1] == s[..3][1] && s[2] == s[..3][2];
  }

  lemma KeepStep(s: string, e: char)
    requires s != "" && s[0] != e
    ensures match GetChar(s)
            case (Null, c) => KeepText(s, [e]) == (Null, c)
            case (At(t), c) => KeepText(s, [e]) == (KeepText(t, [e]).0, c + KeepText(t, [e]).1)
  {
    hide GetChar;
    AtEndTag(s, e);
  }

  /** A reference is read up to its semicolon, or reading ends there. */
  lemma ReadReference(s: string, e: char)
    requires |s| >= 3 && s[..3] == HEX_REFERENCE && IsEndTag(e)
    ensures var (p, text) := KeepText(s, [e]);
            var end := 3 + Find(s[3..], ';');
            p.At? ==> end < |s| && p == KeepText(s[end + 1..], [e]).0
                      && |text| == 1 + |KeepText(s[end + 1..], [e]).1|
  {
    hide GetChar, Find, KeepText;
    assert s[0] == s[..3][0];
    GetReference(s);
    KeepStep(s, e);
  }

  /** One character that starts no reference. */
  lemma PlainStep(v: string, tail: string)
    requires v != "" && !(HEX_REFERENCE <= v)
    ensures Yields(Encode(v) + tail, v[0], Encode(v[1..]) + tail)
    ensures NoReference(v) <==> NoReference(v[1..])
  {
    hide EncodeChar;
    CodeYields(v[0], Encode(v[1..]) + tail);
    Regroup(EncodeChar(v[0]), Encode(v[1..]), tail);
    if NoReference(v[1..]) {
      forall i | 0 <= i <= |v|
        ensures !(HEX_REFERENCE <= v[i..])
      {
        assert i > 0 ==> v[i..] == v[1..][i - 1..];
        assert v[0..] == v;
      }
    }
    if NoReference(v) {
      forall i | 0 <= i <= |v[1..]|
        ensures !(HEX_REFERENCE <= v[1..][i..])
      {
        assert v[1..][i..] == v[i + 1..];
      }
    }
  }

  /**
    Keeping white space, ReadText gives the original and stops behind its end tag if and only if the original has
    no literal hexadecimal reference.
   */
  lemma ReadTextKeepsExactly(v: string, e: char, rest: string)
    requires IsEndTag(e) && rest != ""
    ensures ReadText(Encode(v) + ([e] + rest), false, [e]) == (At(rest), v) <==> NoReference(v)
  {
    hide KeepText, Encode;
    var s := Encode(v) + ([e] + rest);
    if NoReference(v) {
      ReadTextKeeps(v, e, rest);
    } else if ReadText(s, false, [e]) == (At(rest), v) {
      var p := KeepText(s, [e]).0;
      AtEndTag(p.s, e);
      assert p.s == [e] + p.s[1..];
      KeepTextShrinks(v, e, rest);
      assert false;
    }
  }

  /** Every run of spaces becomes one in front of the next character; a run at the end is dropped. */
  function Squeeze(v: string, spaced: bool): string {
    if v == "" then ""
    else if v[0] == ' ' then Squeeze(v[1..], true)
    else (if spaced then " " else "") + [v[0]] + Squeeze(v[1..], false)
  }

  function TrimLeft(v: string): string {
    if v != "" && v[0] == ' ' then TrimLeft(v[1..]) else v
  }

  /** What condensing makes of a text: only spaces are touched. */
  function Squeezed(v: string): string {
    Squeeze(TrimLeft(v), false)
  }

  predicate AllSpace(w: string) {
    forall c :: c in w ==> IsSpace(c)
  }

  lemma {:induction false} CondenseTrailing(w: string, e: char, rest: string, spaced: bool)
    requires AllSpace(w) && IsEndTag(e)
    ensures CondenseText(w + ([e] + rest), [e], spaced) == (At([e] + rest), "")
  {
    var s := w + ([e] + rest);
    AtEndTag(s, e);
    if w == "" {
      assert s == [e] + rest;
    } else {
      assert w[0] in w;
      CondenseTrailing(w[1..], e, rest, true);
      assert s[1..] == w[1..] + ([e] + rest);
    }
  }

  /** The loop of ReadText on encoded text, with white space w in front of the end tag. */
  lemma {:induction false} CondenseTextOfEncoded(v: string, w: string, e: char, rest: string, spaced: bool)
    requires NoReference(v) && AllSpace(w) && IsEndTag(e)
    ensures CondenseText(Encode(v) + (w + ([e] + rest)), [e], spaced) == (At([e] + rest), Squeeze(v, spaced))
  {
    var tail := w + ([e] + rest);
    AtEndTag(Encode(v) + tail, e);
    if v == "" {
      assert Encode(v) + tail == tail;
      CondenseTrailing(w, e, rest, spaced);
    } else {
      EncodedStep(v, tail);
      CondenseTextOfEncoded(v[1..], w, e, rest, v[0] == ' ');
    }
  }

  /** Skipping leading white space drops leading spaces, and w as well when nothing else is there. */
  lemma {:induction false} DropSpacesOfEncoded(v: string, w: string, e: char, rest: string) returns (w': string)
    requires NoReference(v) && AllSpace(w) && IsEndTag(e)
    ensures NoReference(TrimLeft(v)) && AllSpace(w')
    ensures DropSpaces(Encode(v) + (w + ([e] + rest))) == Encode(TrimLeft(v)) + (w' + ([e] + rest))
  {
    var tail := w + ([e] + rest);
    w' := w;
    if v == "" {
      w' := "";
      DropAllSpace(w, [e] + rest);
      assert Encode(v) + tail == tail && "" + ([e] + rest) == [e] + rest;
    } else {
      EncodedStep(v, tail);
      if v[0] == ' ' {
        w' := DropSpacesOfEncoded(v[1..], w, e, rest);
      }
    }
  }

  lemma {:induction false} DropAllSpace(w: string, s: string)
    requires AllSpace(w) && (s == "" || !IsSpace(s[0]))
    ensures DropSpaces(w + s) == s
  {
    if w == "" {
      assert w + s == s;
    } else {
      assert w[0] in w;
      DropAllSpace(w[1..], s);
      assert (w + s)[1..] == w[1..] + s;
    }
  }

  lemma TextUpToOfEncoded(v: string, w: string, e: char, rest: string)
    requires NoReference(v) && AllSpace(w) && IsEndTag(e)
    ensures TextUpTo(Encode(v) + (w + ([e] + rest)), true, [e]) == (At([e] + rest), Squeezed(v))
  {
    var w' := DropSpacesOfEncoded(v, w, e, rest);
    CondenseTextOfEncoded(TrimLeft(v), w', e, rest, false);
  }

  lemma AfterEndTag(s: string, condense: bool, e: char, rest: string, text: string)
    requires TextUpTo(s, condense, [e]) == (At([e] + rest), text) && rest != ""
    ensures ReadText(s, condense, [e]) == (At(rest), text)
  {
    MatchesTagPrefix([e] + rest, [e]);
    assert ([e] + rest)[1..] == rest;
  }

  /** ReadText of what EncodeString wrote, followed by an end tag and more input, keeping white space. */
  lemma ReadTextKeeps(v: string, e: char, rest: string)
    requires NoReference(v) && IsEndTag(e) && rest != ""
    ensures ReadText(Encode(v) + ([e] + rest), false, [e]) == (At(rest), v)
  {
    KeepTextOfEncoded(v, e, rest);
    AfterEndTag(Encode(v) + ([e] + rest), false, e, rest, v);
  }

  /** The same, condensing white space: the original with its spaces squeezed. */
  lemma ReadTextCondenses(v: string, e: char, rest: string)
    requires NoReference(v) && IsEndTag(e) && rest != ""
    ensures ReadText(Encode(v) + ([e] + rest), true, [e]) == (At(rest), Squeezed(v))
  {
    TextUpToOfEncoded(v, "", e, rest);
    assert "" + ([e] + rest) == [e] + rest;
    AfterEndTag(Encode(v) + ([e] + rest), true, e, rest, Squeezed(v));
  }

  // ---------- Which texts condensing leaves alone ----------

  /** No two spaces in a row, none at the end, and none in front if one has just been read. */
  ghost predicate Condensed(v: string, spaced: bool) {
    && (v == "" ==> !spaced)
    && (v != "" ==> v[|v| - 1] != ' ' && !(spaced && v[0] == ' '))
    && forall i :: 0 <= i < |v| - 1 ==> !(v[i] == ' ' && v[i + 1] == ' ')
  }

  /** No leading, trailing or doubled space. Tabs and line ends are not spaces here. */
  ghost predicate Stable(v: string) {
    Condensed(v, false) && (v != "" ==> v[0] != ' ')
  }

  lemma {:induction false} SqueezeOfCondensed(v: string, spaced: bool)
    requires Condensed(v, spaced)
    ensures Squeeze(v, spaced) == (if spaced then " " else "") + v
  {
    if v == "" {
    } else {
      forall i | 0 <= i < |v[1..]| - 1
        ensures !(v[1..][i] == ' ' && v[1..][i + 1] == ' ')
      {
        assert v[1..][i] == v[i + 1] && v[1..][i + 1] == v[i + 2];
      }
      SqueezeOfCondensed(v[1..], v[0] == ' ');
      assert v == [v[0]] + v[1..];
    }
  }

  /** The result of squeezing starts with a space only after one, and has no doubled or trailing space. */
  lemma {:induction false} SqueezeIsCondensed(v: string, spaced: bool)
    ensures Condensed(Squeeze(v, spaced), false)
    ensures var r := Squeeze(v, spaced); r != "" && r[0] == ' ' ==> spaced || (v != "" && v[0] == ' ')
  {
    if v == "" {
    } else if v[0] == ' ' {
      SqueezeIsCondensed(v[1..], true);
    } else {
      SqueezeIsCondensed(v[1..], false);
      var rest := Squeeze(v[1..], false);
      var r := Squeeze(v, spaced);
      assert r == (if spaced then " " else "") + [v[0]] + rest;
      forall i | 0 <= i < |r| - 1
        ensures !(r[i] == ' ' && r[i + 1] == ' ')
      {
        var k := if spaced then 2 else 1;
        assert i >= k ==> r[i] == rest[i - k];
        assert i + 1 >= k ==> r[i + 1] == rest[i + 1 - k];
      }
    }
  }

  /** Condensing returns the original exactly when it has no leading, trailing or doubled spaces. */
  lemma SqueezedUnchanged(v: string)
    ensures Squeezed(v) == v <==> Stable(v)
  {
    TrimLeftStarts(v);
    SqueezeIsCondensed(TrimLeft(v), false);
    if Stable(v) {
      SqueezeOfCondensed(v, false);
      assert "" + v == v;
    }
  }

  lemma {:induction false} TrimLeftStarts(v: string)
    ensures TrimLeft(v) == "" || TrimLeft(v)[0] != ' '
  {
    if v == "" || v[0] != ' ' {
    } else {
      TrimLeftStarts(v[1..]);
    }
  }

  // ---------- Condensing a text with a literal reference ----------

  function One(spaced: bool): nat {
    if spaced then 1 else 0
  }

  /**
    Condensing reads back no more than the original up to the end tag, but for the space it may owe from before;
    a reference makes it shorter.
   */
  ghost predicate CondenseShrinks(v: string, e: char, rest: string, spaced: bool) {
    var (p, text) := CondenseText(Encode(v) + ([e] + rest), [e], spaced);
    p == At([e] + rest) ==>
      |text| <= |v| + One(spaced) && (!NoReference(v) ==> |text| < |v| + One(spaced))
  }

  lemma {:induction false} CondenseTextShrinks(v: string, e: char, rest: string, spaced: bool)
    requires IsEndTag(e)
    ensures CondenseShrinks(v, e, rest, spaced)
    decreases |v|
  {
    hide Encode, CondenseShrinks;
    if v == "" {
      NothingCondensed(e, rest, spaced);
    } else if HEX_REFERENCE <= v {
      var k := PassThrough(v, 0);
      PassThroughStops(v, 0);
      if v[k] == ';' {
        CondenseTextShrinks(v[k + 1..], e, rest, false);
      }
      ReferenceCondensed(v, e, rest, spaced);
    } else {
      CondenseTextShrinks(v[1..], e, rest, v[0] == ' ');
      PlainCondensed(v, e, rest, spaced);
    }
  }

  lemma CondenseNothing(e: char, rest: string, spaced: bool)
    requires IsEndTag(e)
    ensures CondenseText([e] + rest, [e], spaced) == (At([e] + rest), "")
  {
    AtEndTag([e] + rest, e);
  }

  lemma NothingCondensed(e: char, rest: string, spaced: bool)
    requires IsEndTag(e)
    ensures CondenseShrinks("", e, rest, spaced)
  {
    CondenseNothing(e, rest, spaced);
    assert "" + ([e] + rest) == [e] + rest;
  }

  lemma CondenseStep(s: string, e: char, spaced: bool)
    requires s != "" && s[0] != e
    ensures IsSpace(s[0]) ==> CondenseText(s, [e], spaced) == CondenseText(s[1..], [e], true)
    ensures !IsSpace(s[0]) ==>
              match GetChar(s)
              case (Null, c) => CondenseText(s, [e], spaced).0 == Null
              case (At(t), c) => CondenseText(s, [e], spaced).0 == CondenseText(t, [e], false).0
                                 && |CondenseText(s, [e], spaced).1| == One(spaced) + |c| + |CondenseText(t, [e], false).1|
  {
    hide GetChar;
    AtEndTag(s, e);
  }

  lemma PlainCondensed(v: string, e: char, rest: string, spaced: bool)
    requires IsEndTag(e) && v != "" && !(HEX_REFERENCE <= v) && CondenseShrinks(v[1..], e, rest, v[0] == ' ')
    ensures CondenseShrinks(v, e, rest, spaced)
  {
    hide Encode, NoReference, CondenseText, GetChar;
    PlainStep(v, [e] + rest);
    CondenseStep(Encode(v) + ([e] + rest), e, spaced);
  }

  lemma ReferenceCondensed(v: string, e: char, rest: string, spaced: bool)
    requires IsEndTag(e) && HEX_REFERENCE <= v
    requires var k := PassThrough(v, 0); v[k] == ';' ==> CondenseShrinks(v[k + 1..], e, rest, false)
    ensures CondenseShrinks(v, e, rest, spaced)
  {
    hide Encode, CondenseText, PassThrough, NoReference, Find, GetChar;
    var s, tail := Encode(v) + ([e] + rest), [e] + rest;
    ReferenceEnd(v, tail);
    ReferenceTail(v);
    assert s[0] == s[..3][0];
    GetReference(s);
    CondenseStep(s, e, spaced);
    CondenseNothing(e, rest, false);
  }

  /** Skipping white space drops the leading spaces of any encoded text, and nothing else. */
  lemma {:induction false} LeadingSpaces(v: string, e: char, rest: string)
    requires IsEndTag(e)
    ensures DropSpaces(Encode(v) + ([e] + rest)) == Encode(TrimLeft(v)) + ([e] + rest)
    ensures |TrimLeft(v)| <= |v| && (NoReference(TrimLeft(v)) <==> NoReference(v))
  {
    hide NoReference, Encode;
    var s, tail := Encode(v) + ([e] + rest), [e] + rest;
    if v == "" {
      EncodeNothing();
      assert s == tail;
    } else if HEX_REFERENCE <= v {
      ReferenceEnd(v, tail);
      assert s[0] == s[..3][0];
    } else {
      PlainStep(v, tail);
      if v[0] == ' ' {
        LeadingSpaces(v[1..], e, rest);
      }
    }
  }

  /**
    Condensing white space, ReadText gives the original and stops behind its end tag if and only if the original has
    no literal hexadecimal reference and no leading, trailing or doubled space.
   */
  lemma ReadTextCondensesExactly(v: string, e: char, rest: string)
    requires IsEndTag(e) && rest != ""
    ensures ReadText(Encode(v) + ([e] + rest), true, [e]) == (At(rest), v) <==> NoReference(v) && Stable(v)
  {
    hide CondenseText, Encode, Squeezed, Stable, NoReference;
    var s := Encode(v) + ([e] + rest);
    if NoReference(v) {
      ReadTextCondenses(v, e, rest);
      SqueezedUnchanged(v);
    } else if ReadText(s, true, [e]) == (At(rest), v) {
      LeadingSpaces(v, e, rest);
      var p := CondenseText(DropSpaces(s), [e], false).0;
      AtEndTag(p.s, e);
      assert p.s == [e] + p.s[1..];
      CondenseTextShrinks(TrimLeft(v), e, rest, false);
      assert false;
    }
  }
}
