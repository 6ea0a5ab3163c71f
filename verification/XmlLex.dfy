/**
  The character level of TinyXML in byte encoding, as functions.

  A C pointer into the text is shown as what remains in front of the terminator, so that advancing
  a pointer is dropping characters; Null is the null pointer. A char stands for a byte.
 */
module XmlLex {

  datatype Ptr = Null | At(s: string)

  /** The pointer is not null and not at the terminator: the source's test "p && *p". */
  predicate Live(p: Ptr) {
    p.At? && p.s != ""
  }

  const WORD32: nat := 0x1_0000_0000
  const WORD64: nat := 0x1_0000_0000_0000_0000

  // ---------- Character classes ----------

  predicate IsSpace(c: char) {
    c == ' ' || 9 <= c as int <= 13
  }

  predicate IsAlpha(c: char) {
    'a' <= c <= 'z' || 'A' <= c <= 'Z' || c as int >= 127
  }

  predicate IsAlphaNum(c: char) {
    IsAlpha(c) || '0' <= c <= '9'
  }

  predicate IsNameChar(c: char) {
    IsAlphaNum(c) || c == '_' || c == '-' || c == '.' || c == ':'
  }

  function ToLower(c: char): char {
    if 'A' <= c <= 'Z' then c + 32 as char else c
  }

  // ---------- Skipping and comparing ----------

  function DropSpaces(s: string): (r: string)
    ensures |r| <= |s|
    ensures r == "" || !IsSpace(r[0])
  {
    if s != "" && IsSpace(s[0]) then DropSpaces(s[1..]) else s
  }

  /** Null at the terminator, but the terminator itself after trailing white space. */
  function SkipWhiteSpace(p: Ptr): (r: Ptr)
    ensures r.At? <==> Live(p)
    ensures r.At? ==> |r.s| <= |p.s|
  {
    if Live(p) then At(DropSpaces(p.s)) else Null
  }

  predicate MatchesTag(s: string, tag: string, ignoreCase: bool) {
    tag == "" ||
    (s != ""
     && (if ignoreCase then ToLower(s[0]) == ToLower(tag[0]) else s[0] == tag[0])
     && MatchesTag(s[1..], tag[1..], ignoreCase))
  }

  predicate StringEqual(s: string, tag: string, ignoreCase: bool) {
    s != "" && MatchesTag(s, tag, ignoreCase)
  }

  lemma {:induction false} MatchesTagPrefix(s: string, tag: string)
    ensures MatchesTag(s, tag, false) <==> tag <= s
  {
    if tag == "" || s == "" {
    } else {
      MatchesTagPrefix(s[1..], tag[1..]);
      assert s == [s[0]] + s[1..] && tag == [tag[0]] + tag[1..];
    }
  }

  function NameLength(s: string): (n: nat)
    ensures n <= |s|
    ensures forall k :: 0 <= k < n ==> IsNameChar(s[k])
    ensures n < |s| ==> !IsNameChar(s[n])
  {
    if s != "" && IsNameChar(s[0]) then 1 + NameLength(s[1..]) else 0
  }

  lemma NameStep(s: string, p: nat)
    requires p < |s| && IsNameChar(s[p])
    ensures NameLength(s[p..]) == 1 + NameLength(s[p + 1..])
  {
    assert s[p..][1..] == s[p + 1..];
  }

  function ReadName(p: Ptr): (r: (Ptr, string))
    ensures r.0.At? ==> Live(p) && |r.0.s| < |p.s|
  {
    if Live(p) && (IsAlpha(p.s[0]) || p.s[0] == '_') then
      (At(p.s[NameLength(p.s)..]), p.s[..NameLength(p.s)])
    else (Null, "")
  }

  // ---------- Entities ----------

  /** strchr: the position of the first c, or the length of s. */
  function Find(s: string, c: char): (n: nat)
    ensures n <= |s|
    ensures c !in s[..n] && (n < |s| ==> s[n] == c)
  {
    if s == "" || s[0] == c then 0 else 1 + Find(s[1..], c)
  }

  lemma FindStep(s: string, p: nat, c: char)
    requires p < |s| && s[p] != c
    ensures Find(s[p..], c) == 1 + Find(s[p + 1..], c)
  {
    assert s[p..][1..] == s[p + 1..];
  }

  datatype Value = Bad | Good(n: nat)

  function DigitOf(c: char, base: nat): Value {
    if '0' <= c <= '9' then Good(c as int - '0' as int)
    else if base == 16 && 'a' <= c <= 'f' then Good(c as int - 'a' as int + 10)
    else if base == 16 && 'A' <= c <= 'F' then Good(c as int - 'A' as int + 10)
    else Bad
  }

  /** The digits read from the right, down to the mark ('x' or '#'); mult is 32 and ucs 64 bits wide. */
  function ReadDigits(t: string, mark: char, base: nat, mult: nat, ucs: nat): Value {
    if t == "" then Bad
    else
      var c := t[|t| - 1];
      if c == mark then Good(ucs)
      else
        match DigitOf(c, base)
        case Bad => Bad
        case Good(d) =>
          ReadDigits(t[..|t| - 1], mark, base, mult * base % WORD32, (ucs + mult * d % WORD32) % WORD64)
  }

  predicate IsNumericReference(s: string) {
    |s| >= 3 && s[1] == '#'
  }

  /** What a numeric reference at s stands for and where it ends; Bad if it is not closed or not a number. */
  function NumericReference(s: string): (r: (Ptr, Value))
    requires IsNumericReference(s)
    ensures r.0.At? <==> r.1.Good?
    ensures r.0.At? ==> |r.0.s| < |s|
  {
    var hex := s[2] == 'x';
    var from := if hex then 3 else 2;
    var end := from + Find(s[from..], ';');
    if end == |s| then (Null, Bad)
    else
      match ReadDigits(s[from - 1..end], if hex then 'x' else '#', if hex then 16 else 10, 1, 0)
      case Bad => (Null, Bad)
      case Good(n) => (At(s[end + 1..]), Good(n))
  }

  const ENTITIES: seq<(string, char)> :=
    [("&amp;", '&'), ("&lt;", '<'), ("&gt;", '>'), ("&quot;", '\"'), ("&apos;", '\'')]

  /** The first entity of the table, from i on, that s starts with; the length of the table if none. */
  function EntityAt(s: string, i: nat): (r: nat)
    requires i <= |ENTITIES|
    ensures i <= r <= |ENTITIES|
    ensures r < |ENTITIES| ==> ENTITIES[r].0 <= s
    decreases |ENTITIES| - i
  {
    if i == |ENTITIES| || ENTITIES[i].0 <= s then i else EntityAt(s, i + 1)
  }

  /** A reference yields one character; an ampersand that starts none yields nothing. */
  function GetEntity(s: string): (r: (Ptr, string))
    requires s != ""
    ensures r.0.At? ==> |r.0.s| < |s|
  {
    if IsNumericReference(s) then
      match NumericReference(s)
      case (p, Good(n)) => (p, [(n % 256) as char])
      case (p, Bad) => (Null, "")
    else
      var i := EntityAt(s, 0);
      if i < |ENTITIES| then (At(s[|ENTITIES[i].0|..]), [ENTITIES[i].1]) else (At(s[1..]), "")
  }

  function GetChar(s: string): (r: (Ptr, string))
    requires s != ""
    ensures r.0.At? ==> |r.0.s| < |s|
  {
    if s[0] == '&' then GetEntity(s) else (At(s[1..]), [s[0]])
  }

  // ---------- Text ----------

  /** The loop of ReadText that keeps white space, up to the end tag, the terminator or a bad reference. */
  function KeepText(s: string, endTag: string): (r: (Ptr, string))
    ensures r.0.At? ==> |r.0.s| <= |s|
    ensures Live(r.0) ==> StringEqual(r.0.s, endTag, false)
    decreases |s|
  {
    if s == "" || StringEqual(s, endTag, false) then (At(s), "")
    else
      match GetChar(s)
      case (Null, c) => (Null, c)
      case (At(t), c) => var (p, text) := KeepText(t, endTag); (p, c + text)
  }

  /** The loop that turns every run of white space into one space; spaced: a run has just been read. */
  function CondenseText(s: string, endTag: string, spaced: bool): (r: (Ptr, string))
    ensures r.0.At? ==> |r.0.s| <= |s|
    ensures Live(r.0) ==> StringEqual(r.0.s, endTag, false)
    decreases |s|
  {
    if s == "" || StringEqual(s, endTag, false) then (At(s), "")
    else if IsSpace(s[0]) then CondenseText(s[1..], endTag, true)
    else
      var space := if spaced then " " else "";
      match GetChar(s)
      case (Null, c) => (Null, space + c)
      case (At(t), c) => var (p, text) := CondenseText(t, endTag, false); (p, space + c + text)
  }

  /** Where ReadText stops reading, and the text read. */
  function TextUpTo(s: string, condense: bool, endTag: string): (r: (Ptr, string))
    ensures r.0.At? ==> |r.0.s| <= |s|
    ensures Live(r.0) ==> StringEqual(r.0.s, endTag, false)
  {
    if condense then
      match SkipWhiteSpace(At(s))
      case Null => (Null, "")
      case At(t) => CondenseText(t, endTag, false)
    else KeepText(s, endTag)
  }

  /** ReadText steps over the end tag, and gives null when nothing follows. */
  function ReadText(s: string, condense: bool, endTag: string): (r: (Ptr, string))
    ensures r.0.At? ==> |r.0.s| + |endTag| <= |s| && r.0.s != ""
  {
    var (p, text) := TextUpTo(s, condense, endTag);
    if Live(p) then
      MatchesTagPrefix(p.s, endTag);
      var t := p.s[|endTag|..];
      (if t != "" then At(t) else Null, text)
    else (Null, text)
  }

  /** The verbatim loop of comments and CDATA: everything in front of the end tag or the terminator. */
  function Verbatim(s: string, endTag: string): (r: (string, string))
    ensures s == r.0 + r.1
    ensures r.1 != "" ==> StringEqual(r.1, endTag, false)
  {
    if s == "" || StringEqual(s, endTag, false) then ("", s)
    else var (text, rest) := Verbatim(s[1..], endTag); ([s[0]] + text, rest)
  }

  /** s in front of the first c, and behind it. */
  function SplitAt(s: string, c: char): (r: (string, string))
    ensures |r.1| <= |s|
  {
    var n := Find(s, c);
    (s[..n], if n < |s| then s[n + 1..] else "")
  }

  /** All of s in front of the first character that satisfies stop. */
  function Span(s: string, stop: char -> bool): (n: nat)
    ensures n <= |s|
    ensures forall k :: 0 <= k < n ==> !stop(s[k])
    ensures n < |s| ==> stop(s[n])
  {
    if s == "" || stop(s[0]) then 0 else 1 + Span(s[1..], stop)
  }

  lemma SpanStep(s: string, p: nat, stop: char -> bool)
    requires p < |s| && !stop(s[p])
    ensures Span(s[p..], stop) == 1 + Span(s[p + 1..], stop)
  {
    assert s[p..][1..] == s[p + 1..];
  }

  lemma SpanEnds(s: string, p: nat, stop: char -> bool)
    requires p <= |s| && (p < |s| ==> stop(s[p]))
    ensures Span(s[p..], stop) == 0
  {
  }

  /** c_str(): what a C string shows of s. */
  function CStr(s: string): string {
    s[..Find(s, '\0')]
  }
}
