/**
  Which buffers the DFix parser accepts: fields one behind the other, said position by position, and an end that holds
  no further field.
 */
module DFixAccepts {
  import opened Bytes
  import opened DFixSpec

  // ---------- The length text ----------

  predicate IsSpaceByte(c: byte) {
    c == 32 || 9 <= c <= 13
  }

  predicate IsDigitByte(c: byte) {
    48 <= c <= 57
  }

  /** The number that digits denote. */
  function NumberOf(digits: bytes): nat
    requires forall k :: 0 <= k < |digits| ==> IsDigitByte(digits[k])
  {
    if digits == [] then 0
    else
      assert IsDigitByte(digits[|digits| - 1]);
      10 * NumberOf(digits[..|digits| - 1]) + (digits[|digits| - 1] as int - 48)
  }

  lemma {:induction false} DigitsRead(digits: bytes, rest: bytes, acc: nat)
    requires (forall k :: 0 <= k < |digits| ==> IsDigitByte(digits[k])) && (rest == [] || !IsDigitByte(rest[0]))
    ensures Digits(digits + rest, acc) == Digits(digits, acc)
    decreases |digits|
  {
    if digits == [] {
      assert digits + rest == rest;
    } else {
      assert (digits + rest)[1..] == digits[1..] + rest;
      DigitsRead(digits[1..], rest, 10 * acc + digits[0] - 48);
    }
  }

  lemma {:induction false} DigitsAreNumber(digits: bytes)
    requires forall k :: 0 <= k < |digits| ==> IsDigitByte(digits[k])
    ensures Digits(digits, 0) == NumberOf(digits)
    decreases |digits|
  {
    if digits == [] {
    } else {
      var front, d := digits[..|digits| - 1], digits[|digits| - 1];
      DigitsAreNumber(front);
      DigitsAppend(front, d, 0);
      assert front + [d] == digits;
    }
  }

  /** atoi reads white space, a sign if any, and digits, up to the first byte that is none. */
  lemma {:induction false} AtoiReads(white: bytes, sign: bytes, digits: bytes, rest: bytes)
    requires forall k :: 0 <= k < |white| ==> IsSpaceByte(white[k])
    requires sign in {[], [43], [45]} && forall k :: 0 <= k < |digits| ==> IsDigitByte(digits[k])
    requires digits != [] && (rest == [] || !IsDigitByte(rest[0]))
    ensures Atoi(white + (sign + (digits + rest))) == if sign == [45] then 0 - NumberOf(digits) else NumberOf(digits)
    decreases |white|
  {
    var s := white + (sign + (digits + rest));
    if white == [] {
      assert s == sign + (digits + rest);
      assert (digits + rest)[0] == digits[0];
      assert sign == [] ==> s == digits + rest;
      DigitsRead(digits, rest, 0);
      DigitsAreNumber(digits);
      assert sign != [] ==> s[1..] == digits + rest;
    } else {
      assert s[1..] == white[1..] + (sign + (digits + rest));
      AtoiReads(white[1..], sign, digits, rest);
    }
  }

  // ---------- Where a field stands ----------

  /** What strncmp compares of a tag: all of it, or up to its first NUL. */
  function Compared(tag: bytes): (r: bytes)
    ensures |r| <= |tag| && r == tag[..|r|]
    ensures 0 !in tag ==> r == tag
  {
    if tag == [] then [] else if tag[0] == 0 then [0] else [tag[0]] + Compared(tag[1..])
  }

  /** tag = data SOH: the data runs to the first SOH. */
  ghost predicate TextAt(s: bytes, from: nat, tag: bytes, v: Value, data: bytes) {
    && StandsAt(s, from, (tag + [61]) + (data + [1])) && 61 !in tag && 1 !in data && (tag == [] || tag[0] != 82)
    && v == Value(from + |tag| + 1, |data|, TEXT)
  }

  /** R tag = length SOH. */
  ghost predicate RawHeadAt(s: bytes, from: nat, tag: bytes, length: bytes) {
    StandsAt(s, from, ([82] + tag + [61]) + (length + [1])) && 61 !in tag && 1 !in length
  }

  /** tag = data SOH, where a number says how long the data is. */
  ghost predicate RawDataAt(s: bytes, at: nat, tag: bytes, rawlen: int) {
    var eq := at + |tag|;
    && StandsAt(s, at, Compared(tag)) && 0 <= rawlen && eq + 1 + rawlen < |s| && s[eq] == 61 && s[eq + 1 + rawlen] == 1
  }

  /** R tag = length SOH tag = data SOH: the length says where the data ends. */
  ghost predicate RawAt(s: bytes, from: nat, tag: bytes, v: Value, length: bytes) {
    var at := from + |tag| + |length| + 3;
    && RawHeadAt(s, from, tag, length) && |length| < 9 && RawDataAt(s, at, tag, Atoi(length))
    && v == Value(at + |tag| + 1, Atoi(length), RAW)
  }

  ghost predicate FieldAt(s: bytes, from: nat, tag: bytes, v: Value) {
    (exists data :: TextAt(s, from, tag, v, data)) || (exists length :: RawAt(s, from, tag, v, length))
  }

  /** No equals sign follows, or only a text that no SOH ends. */
  ghost predicate NoFieldAt(s: bytes, from: nat) {
    || (forall j :: from <= j < |s| ==> s[j] != 61)
    || exists k :: from <= k < |s| && s[k] == 61 && (forall j :: from <= j < k ==> s[j] != 61)
                   && (k == from || s[from] != 82) && forall j :: k < j < |s| ==> s[j] != 1
  }

  // ---------- Searching and comparing ----------

  lemma {:induction false} FindIs(s: bytes, i: nat, c: byte, r: nat)
    requires i <= r <= |s| && (forall k :: i <= k < r ==> s[k] != c) && (r < |s| ==> s[r] == c)
    ensures Find(s, i, c) == r
    decreases r - i
  {
    if i == r {
    } else {
      FindIs(s, i + 1, c, r);
    }
  }

  lemma {:induction false} CompareExactly(tag: bytes, s: bytes, at: nat)
    requires at <= |s|
    ensures Compare(tag, s, at) == Same <==> StandsAt(s, at, Compared(tag))
    decreases |tag|
  {
    if tag == [] {
    } else if at == |s| {
    } else if tag[0] == 0 {
    } else {
      CompareExactly(tag[1..], s, at + 1);
      var d := Compared(tag[1..]);
      assert Compared(tag) == [tag[0]] + d;
      StandsCons(s, at, tag[0], d);
    }
  }

  lemma StandsCons(s: bytes, at: nat, c: byte, d: bytes)
    ensures StandsAt(s, at, [c] + d) <==> at < |s| && s[at] == c && StandsAt(s, at + 1, d)
  {
    if StandsAt(s, at, [c] + d) {
      StandsSplit(s, at, [c], d);
      StandsByte(s, at, c);
    }
    if at < |s| && s[at] == c && StandsAt(s, at + 1, d) {
      StandsJoin(s, at, [c], d);
    }
  }

  lemma StandsJoin(s: bytes, at: nat, a: bytes, b: bytes)
    requires StandsAt(s, at, a) && StandsAt(s, at + |a|, b)
    ensures StandsAt(s, at, a + b)
  {
    forall k | 0 <= k < |a + b|
      ensures s[at + k] == (a + b)[k]
    {
      assert k >= |a| ==> s[at + |a| + (k - |a|)] == b[k - |a|];
    }
  }

  lemma SliceStands(s: bytes, i: nat, j: nat)
    requires i <= j < |s|
    ensures StandsAt(s, i, s[i..j]) && StandsAt(s, i, s[i..j] + [s[j]])
  {
  }

  /** A part between two positions has no byte that a search between them has not found. */
  lemma NotFound(s: bytes, i: nat, c: byte)
    requires i <= |s|
    ensures c !in s[i..Find(s, i, c)]
  {
    var part := s[i..Find(s, i, c)];
    assert forall k :: 0 <= k < |part| ==> part[k] == s[i + k];
  }

  // ---------- One field ----------

  /** Which of the two kinds of field begins, by its tag. */
  lemma FieldByTag(s: bytes, from: nat, m: Values, bound: int)
    requires from <= |s|
    ensures Find(s, from, 61) == |s| ==> ParseField(s, from, m, bound) == Done(Accepted, m)
    ensures from == Find(s, from, 61) < |s| || (Find(s, from, 61) < |s| && s[from] != 82) ==>
              ParseField(s, from, m, bound) == ParseTextField(s, s[from..Find(s, from, 61)], Find(s, from, 61), m)
    ensures from < Find(s, from, 61) < |s| && s[from] == 82 ==>
              ParseField(s, from, m, bound) == ParseRawField(s, s[from + 1..Find(s, from, 61)], Find(s, from, 61), m, bound)
  {
    hide ParseTextField, ParseRawField, Find;
    var tagend := Find(s, from, 61);
    if from < tagend < |s| {
      assert s[from..tagend] == [s[from]] + s[from + 1..tagend];
    }
  }

  /** A field whose tag is no raw one: tagend is its equals sign, end the SOH behind it or the end of the buffer. */
  lemma TextExactly(s: bytes, from: nat, m: Values, bound: int, tagend: nat, end: nat)
    requires from <= |s| && tagend == Find(s, from, 61) < |s| && end == Find(s, tagend + 1, 1)
    requires tagend == from || s[from] != 82
    ensures end == |s| ==> ParseField(s, from, m, bound) == Done(Accepted, m)
    ensures end < |s| ==>
              var tag, v := s[from..tagend], Value(tagend + 1, end - (tagend + 1), TEXT);
              && TextAt(s, from, tag, v, s[tagend + 1..end])
              && ParseField(s, from, m, bound) == Next(end + 1, Insert(m, tag, v), v.buflen)
  {
    FieldByTag(s, from, m, bound);
    NotFound(s, from, 61);
    NotFound(s, tagend + 1, 1);
    var tag := s[from..tagend];
    TextRead(s, tag, tagend, end, m);
    hide TextAt, Find, ParseField, ParseTextField, Insert;
    if end < |s| {
      TextStands(s, from, tagend, end);
    }
  }

  lemma TextRead(s: bytes, tag: bytes, tagend: nat, end: nat, m: Values)
    requires tagend < |s| && end == Find(s, tagend + 1, 1)
    ensures ParseTextField(s, tag, tagend, m)
         == if end == |s| then Done(Accepted, m)
            else Next(end + 1, Insert(m, tag, Value(tagend + 1, end - (tagend + 1), TEXT)), end - (tagend + 1))
  {
  }

  lemma TextStands(s: bytes, from: nat, tagend: nat, end: nat)
    requires from <= tagend < end < |s| && s[tagend] == 61 && s[end] == 1
    requires 61 !in s[from..tagend] && 1 !in s[tagend + 1..end] && (tagend == from || s[from] != 82)
    ensures TextAt(s, from, s[from..tagend], Value(tagend + 1, end - (tagend + 1), TEXT), s[tagend + 1..end])
  {
    hide StandsAt;
    SliceStands(s, from, tagend);
    SliceStands(s, tagend + 1, end);
    StandsJoin(s, from, s[from..tagend] + [61], s[tagend + 1..end] + [1]);
  }

  /** Behind its head a raw field goes on with the tag again, unless the length text is too long. */
  lemma RawHeadRead(s: bytes, from: nat, tag: bytes, length: bytes, m: Values, bound: int)
    requires RawHeadAt(s, from, tag, length)
    ensures from + |tag| + |length| + 3 <= |s|
    ensures ParseField(s, from, m, bound)
         == if |length| >= 9 then Done(Rejected, m)
            else ParseRawData(s, tag, from + |tag| + |length| + 3, Atoi(length), m, |length|)
  {
    hide ParseRawData, Atoi, ParseTextField, ParseField, StandsAt, ParseRawField, Find;
    var name := [82] + tag;
    StandsSplit(s, from, name + [61], length + [1]);
    FindBehind(s, from, name, 61);
    StandsSplit(s, from, name, [61]);
    StandsSlice(s, from, name);
    StandsByte(s, from + |name|, 61);
    StandsTail(s, from, 82, tag);
    FieldByTag(s, from, m, bound);
    RawLengthRead(s, tag, from + |name|, length, m, bound);
  }

  lemma StandsTail(s: bytes, from: nat, c: byte, tag: bytes)
    requires StandsAt(s, from, [c] + tag)
    ensures from + 1 + |tag| <= |s| && s[from] == c && s[from + 1..from + 1 + |tag|] == tag
  {
    StandsSplit(s, from, [c], tag);
    StandsByte(s, from, c);
    StandsSlice(s, from + 1, tag);
  }

  lemma RawLengthRead(s: bytes, tag: bytes, tagend: nat, length: bytes, m: Values, bound: int)
    requires tagend < |s| && s[tagend] == 61 && StandsAt(s, tagend + 1, length + [1]) && 1 !in length
    ensures tagend + |length| + 2 <= |s|
    ensures ParseRawField(s, tag, tagend, m, bound)
         == if |length| >= 9 then Done(Rejected, m)
            else ParseRawData(s, tag, tagend + |length| + 2, Atoi(length), m, |length|)
  {
    hide ParseRawData, Atoi, StandsAt;
    FindBehind(s, tagend + 1, length, 1);
    assert Find(s, tagend, 1) == Find(s, tagend + 1, 1);
    StandsSplit(s, tagend + 1, length, [1]);
    StandsSlice(s, tagend + 1, length);
    StandsByte(s, tagend + 1 + |length|, 1);
  }

  lemma RawDataExactly(s: bytes, at: nat, tag: bytes, rawlen: int, m: Values, bound: int)
    requires at <= |s|
    ensures var r := ParseRawData(s, tag, at, rawlen, m, bound);
            var buf := at + |tag| + 1;
            if RawDataAt(s, at, tag, rawlen)
            then r == Next(buf + rawlen + 1, Insert(m, tag, Value(buf, rawlen, RAW)), bound)
            else r.Done? && r.o != Accepted
  {
    hide StandsAt, Insert, Compare, Compared;
    CompareExactly(tag, s, at);
  }

  /** A raw tag: the field has a head, or the parse ends badly. */
  lemma RawHeadExactly(s: bytes, from: nat, m: Values, bound: int)
    requires from <= |s| && from < Find(s, from, 61) < |s| && s[from] == 82
    ensures var tagend := Find(s, from, 61);
            var end := Find(s, tagend + 1, 1);
            if end < |s| then RawHeadAt(s, from, s[from + 1..tagend], s[tagend + 1..end])
            else ParseField(s, from, m, bound).Done? && ParseField(s, from, m, bound).o != Accepted
  {
    hide StandsAt, Find, ParseField, ParseRawData, Atoi, RawHeadAt;
    var tagend := Find(s, from, 61);
    FieldByTag(s, from, m, bound);
    NotFound(s, from, 61);
    NotFound(s, tagend + 1, 1);
    if Find(s, tagend + 1, 1) < |s| {
      RawHeadStands(s, from, tagend, Find(s, tagend + 1, 1));
    } else {
      SameSearch(s, tagend);
    }
  }

  lemma RawHeadStands(s: bytes, from: nat, tagend: nat, end: nat)
    requires from < tagend < end < |s| && s[from] == 82 && s[tagend] == 61 && s[end] == 1
    requires 61 !in s[from..tagend] && 1 !in s[tagend + 1..end]
    ensures RawHeadAt(s, from, s[from + 1..tagend], s[tagend + 1..end])
  {
    hide StandsAt;
    var tag := s[from + 1..tagend];
    assert s[from..tagend] == [82] + tag;
    TailHasNot(82, tag, 61);
    SliceStands(s, from, tagend);
    SliceStands(s, tagend + 1, end);
    StandsJoin(s, from, [82] + tag + [61], s[tagend + 1..end] + [1]);
  }

  lemma TailHasNot(c: byte, tag: bytes, d: byte)
    requires d !in [c] + tag
    ensures d !in tag
  {
    assert forall k :: 0 <= k < |tag| ==> tag[k] == ([c] + tag)[k + 1];
  }

  lemma SameSearch(s: bytes, tagend: nat)
    requires tagend < |s| && s[tagend] == 61
    ensures Find(s, tagend, 1) == Find(s, tagend + 1, 1)
  {
  }

  /** A field is read exactly where one stands, and entered under its tag unless the tag is there. */
  lemma NextIsField(s: bytes, from: nat, m: Values, bound: int) returns (tag: bytes, v: Value)
    requires from <= |s| && ParseField(s, from, m, bound).Next?
    ensures FieldAt(s, from, tag, v) && ParseField(s, from, m, bound).at == v.buf + v.buflen + 1
    ensures ParseField(s, from, m, bound).m == Insert(m, tag, v)
  {
    var tagend := Find(s, from, 61);
    assert tagend < |s|;
    if tagend == from || s[from] != 82 {
      var end := Find(s, tagend + 1, 1);
      TextExactly(s, from, m, bound, tagend, end);
      tag, v := s[from..tagend], Value(tagend + 1, end - (tagend + 1), TEXT);
      assert TextAt(s, from, tag, v, s[tagend + 1..end]);
    } else {
      tag, v := RawIsField(s, from, m, bound);
    }
  }

  lemma RawIsField(s: bytes, from: nat, m: Values, bound: int) returns (tag: bytes, v: Value)
    requires from <= |s| && from < Find(s, from, 61) < |s| && s[from] == 82 && ParseField(s, from, m, bound).Next?
    ensures FieldAt(s, from, tag, v) && ParseField(s, from, m, bound).at == v.buf + v.buflen + 1
    ensures ParseField(s, from, m, bound).m == Insert(m, tag, v)
  {
    hide Atoi, ParseRawData, ParseField, Insert, StandsAt, Find, RawHeadAt, RawDataAt;
    RawHeadExactly(s, from, m, bound);
    var tagend := Find(s, from, 61);
    var end := Find(s, tagend + 1, 1);
    var length := s[tagend + 1..end];
    tag := s[from + 1..tagend];
    RawHeadRead(s, from, tag, length, m, bound);
    RawDataExactly(s, end + 1, tag, Atoi(length), m, |length|);
    RawLengthIsNat(s, end + 1, tag, Atoi(length));
    v := Value(end + 1 + |tag| + 1, if Atoi(length) >= 0 then Atoi(length) else 0, RAW);
    assert RawAt(s, from, tag, v, length);
  }

  lemma RawLengthIsNat(s: bytes, at: nat, tag: bytes, rawlen: int)
    ensures RawDataAt(s, at, tag, rawlen) ==> rawlen >= 0
  {
  }

  lemma FieldIsNext(s: bytes, from: nat, tag: bytes, v: Value, m: Values, bound: int)
    requires from <= |s| && FieldAt(s, from, tag, v)
    ensures var r := ParseField(s, from, m, bound);
            r.Next? && r.at == v.buf + v.buflen + 1 && r.m == Insert(m, tag, v)
  {
    if data :| TextAt(s, from, tag, v, data) {
      TextIsNext(s, from, tag, v, data, m, bound);
    } else {
      var length :| RawAt(s, from, tag, v, length);
      hide Atoi, ParseRawData, ParseField, Insert, RawHeadAt;
      RawHeadRead(s, from, tag, length, m, bound);
      RawDataExactly(s, from + |tag| + |length| + 3, tag, Atoi(length), m, |length|);
    }
  }

  lemma TextIsNext(s: bytes, from: nat, tag: bytes, v: Value, data: bytes, m: Values, bound: int)
    requires from <= |s| && TextAt(s, from, tag, v, data)
    ensures var r := ParseField(s, from, m, bound);
            r.Next? && r.at == v.buf + v.buflen + 1 && r.m == Insert(m, tag, v)
  {
    hide StandsAt, Insert;
    var tagend := from + |tag|;
    StandsSplit(s, from, tag + [61], data + [1]);
    FindBehind(s, from, tag, 61);
    StandsSplit(s, from, tag, [61]);
    StandsSlice(s, from, tag);
    StandsByte(s, tagend, 61);
    FindBehind(s, tagend + 1, data, 1);
    StandsSplit(s, tagend + 1, data, [1]);
    StandsByte(s, tagend + 1 + |data|, 1);
  }

  /** The parse ends well exactly where no field stands. */
  lemma EndExactly(s: bytes, from: nat, m: Values, bound: int)
    requires from <= |s|
    ensures ParseField(s, from, m, bound) == Done(Accepted, m) <==> NoFieldAt(s, from)
    ensures ParseField(s, from, m, bound).Done? && ParseField(s, from, m, bound).o == Accepted
       <==> ParseField(s, from, m, bound) == Done(Accepted, m)
  {
    var tagend := Find(s, from, 61);
    if tagend == |s| {
    } else if tagend == from || s[from] != 82 {
      TextExactly(s, from, m, bound, tagend, Find(s, tagend + 1, 1));
      TextEnds(s, from, tagend);
    } else {
      RawEnds(s, from, m, bound);
    }
  }

  lemma TextEnds(s: bytes, from: nat, tagend: nat)
    requires from <= |s| && tagend == Find(s, from, 61) < |s| && (tagend == from || s[from] != 82)
    ensures NoFieldAt(s, from) <==> Find(s, tagend + 1, 1) == |s|
  {
    forall k | from <= k < |s| && s[k] == 61 && forall j :: from <= j < k ==> s[j] != 61
      ensures k == tagend
    {
      FindIs(s, from, 61, k);
    }
    var end := Find(s, tagend + 1, 1);
    assert end < |s| ==> s[end] == 1;
  }

  lemma RawEnds(s: bytes, from: nat, m: Values, bound: int)
    requires from <= |s| && from < Find(s, from, 61) < |s| && s[from] == 82
    ensures !NoFieldAt(s, from)
    ensures ParseField(s, from, m, bound).Done? ==> ParseField(s, from, m, bound).o != Accepted
  {
    hide Atoi, ParseRawData, ParseField, StandsAt, RawHeadAt, RawDataAt, NoFieldAt, Find;
    var tagend := Find(s, from, 61);
    var end := Find(s, tagend + 1, 1);
    RawIsNoEnd(s, from);
    RawHeadExactly(s, from, m, bound);
    if end < |s| {
      RawHeadRead(s, from, s[from + 1..tagend], s[tagend + 1..end], m, bound);
      RawDataExactly(s, end + 1, s[from + 1..tagend], Atoi(s[tagend + 1..end]), m, |s[tagend + 1..end]|);
    }
  }

  lemma RawIsNoEnd(s: bytes, from: nat)
    requires from <= |s| && from < Find(s, from, 61) < |s| && s[from] == 82
    ensures !NoFieldAt(s, from)
  {
    forall k | from <= k < |s| && s[k] == 61 && forall j :: from <= j < k ==> s[j] != 61
      ensures k == Find(s, from, 61)
    {
      FindIs(s, from, 61, k);
    }
  }

  // ---------- The whole buffer ----------

  /** The fields stand one behind the other from a position on, and none behind the last. */
  ghost predicate FieldsFrom(s: bytes, from: nat, entries: seq<(bytes, Value)>)
    decreases |entries|
  {
    if entries == [] then NoFieldAt(s, from)
    else
      from <= |s| && FieldAt(s, from, entries[0].0, entries[0].1)
      && FieldsFrom(s, entries[0].1.buf + entries[0].1.buflen + 1, entries[1..])
  }

  function InsertAll(m: Values, entries: seq<(bytes, Value)>): Values
    decreases |entries|
  {
    if entries == [] then m else InsertAll(Insert(m, entries[0].0, entries[0].1), entries[1..])
  }

  lemma {:induction false} AcceptedHasFields(s: bytes, from: nat, m: Values, bound: int)
    returns (entries: seq<(bytes, Value)>)
    requires from <= |s| && ParseFields(s, from, m, bound).0 == Accepted
    ensures FieldsFrom(s, from, entries) && ParseFields(s, from, m, bound).1 == InsertAll(m, entries)
    decreases |s| - from
  {
    hide ParseField, FieldAt, NoFieldAt, Insert;
    match ParseField(s, from, m, bound)
    case Done(o, m') =>
      EndExactly(s, from, m, bound);
      entries := [];
    case Next(at, m', bound') =>
      var tag, v := NextIsField(s, from, m, bound);
      var rest := AcceptedHasFields(s, at, m', bound');
      entries := [(tag, v)] + rest;
      assert entries[1..] == rest;
  }

  lemma {:induction false} FieldsAreAccepted(s: bytes, from: nat, entries: seq<(bytes, Value)>, m: Values, bound: int)
    requires from <= |s| && FieldsFrom(s, from, entries)
    ensures ParseFields(s, from, m, bound) == (Accepted, InsertAll(m, entries))
    decreases |entries|
  {
    hide ParseField, FieldAt, NoFieldAt, Insert;
    if entries == [] {
      EndExactly(s, from, m, bound);
    } else {
      var (tag, v) := entries[0];
      FieldIsNext(s, from, tag, v, m, bound);
      var r := ParseField(s, from, m, bound);
      FieldsAreAccepted(s, r.at, entries[1..], r.m, r.bound);
    }
  }

  /** A buffer is accepted if and only if it is fields one behind the other and an end without a field. */
  lemma AcceptedExactly(s: bytes)
    ensures ParseFields(s, 0, map[], -1).0 == Accepted <==> exists entries :: FieldsFrom(s, 0, entries)
    ensures forall entries :: FieldsFrom(s, 0, entries) ==> ParseFields(s, 0, map[], -1).1 == InsertAll(map[], entries)
  {
    if ParseFields(s, 0, map[], -1).0 == Accepted {
      var entries := AcceptedHasFields(s, 0, map[], -1);
    }
    forall entries | FieldsFrom(s, 0, entries)
      ensures ParseFields(s, 0, map[], -1) == (Accepted, InsertAll(map[], entries))
    {
      FieldsAreAccepted(s, 0, entries, map[], -1);
    }
  }

  predicate HasTag(entries: seq<(bytes, Value)>, tag: bytes) {
    exists k :: 0 <= k < |entries| && entries[k].0 == tag
  }

  /** Inserting entries keeps what is there. */
  lemma {:induction false} InsertAllKeeps(m: Values, entries: seq<(bytes, Value)>)
    ensures forall tag :: tag in InsertAll(m, entries) <==> tag in m || HasTag(entries, tag)
    ensures forall tag :: tag in m ==> InsertAll(m, entries)[tag] == m[tag]
    decreases |entries|
  {
    if entries == [] {
    } else {
      InsertAllKeeps(Insert(m, entries[0].0, entries[0].1), entries[1..]);
      forall tag
        ensures HasTag(entries, tag) <==> entries[0].0 == tag || HasTag(entries[1..], tag)
      {
        if k :| 0 <= k < |entries[1..]| && entries[1..][k].0 == tag {
          assert entries[k + 1].0 == tag;
        }
        if k :| 0 < k < |entries| && entries[k].0 == tag {
          assert entries[1..][k - 1].0 == tag;
        }
      }
    }
  }

  lemma {:induction false} InsertAllAppend(m: Values, a: seq<(bytes, Value)>, b: seq<(bytes, Value)>)
    ensures InsertAll(m, a + b) == InsertAll(InsertAll(m, a), b)
    decreases |a|
  {
    if a == [] {
      assert a + b == b;
    } else {
      assert (a + b)[1..] == a[1..] + b;
      InsertAllAppend(Insert(m, a[0].0, a[0].1), a[1..], b);
    }
  }

  /** Of several fields with one tag the first one counts, and a tag without a field is not found. */
  lemma FirstFieldCounts(a: seq<(bytes, Value)>, e: (bytes, Value), b: seq<(bytes, Value)>)
    requires !HasTag(a, e.0)
    ensures var m := InsertAll(map[], a + [e] + b);
            && e.0 in m && m[e.0] == e.1
            && forall tag :: tag in m <==> HasTag(a + [e] + b, tag)
  {
    hide InsertAll, HasTag;
    InsertAllKeeps(map[], a + [e] + b);
    InsertAllAppend(map[], a + [e], b);
    InsertAllAppend(map[], a, [e]);
    var m := InsertAll(map[], a);
    InsertAllKeeps(map[], a);
    assert InsertAll(m, [e]) == Insert(m, e.0, e.1) by { InsertOne(m, e); }
    InsertAllKeeps(InsertAll(m, [e]), b);
  }

  lemma InsertOne(m: Values, e: (bytes, Value))
    ensures InsertAll(m, [e]) == Insert(m, e.0, e.1)
  {
    assert [e][1..] == [];
  }

  // ---------- What the writer writes ----------

  /** The bytes of a text field and of a raw field, and those of a flushed stream, which starts with L and a length. */
  lemma WrittenBytes(tag: bytes, data: bytes, fields: seq<Field>)
    ensures Encode(TextField(tag, data)) == tag + [61] + data + [1]
    ensures Encode(RawField(tag, data)) == [82] + tag + [61] + Decimal(|data|) + [1] + tag + [61] + data + [1]
    ensures Stream(fields) == [76, 61] + Decimal(|EncodeAll(fields)|) + [1] + EncodeAll(fields)
  {
    hide Decimal, EncodeAll;
  }

  /** First gives the first field of a tag. */
  lemma {:induction false} FirstIsFirst(fields: seq<Field>, tag: bytes)
    ensures var k := First(fields, tag);
            && k < |fields|
            && (k >= 0 ==> fields[k].tag == tag && forall j :: 0 <= j < k ==> fields[j].tag != tag)
            && (k < 0 ==> forall j :: 0 <= j < |fields| ==> fields[j].tag != tag)
  {
    if fields == [] {
    } else {
      FirstIsFirst(fields[1..], tag);
    }
  }

  // ---------- What an entry of the map says about the buffer ----------

  /**
    The value lies in the buffer between an equals sign and a SOH, its tag stands in front; a text holds no SOH, and
    in front of raw data a length text reads as its length.
   */
  ghost predicate Sound(s: bytes, tag: bytes, v: Value) {
    && |tag| + 1 <= v.buf && v.buf + v.buflen < |s|
    && s[v.buf - 1] == 61 && s[v.buf + v.buflen] == 1
    && (v.kind == TEXT || 0 !in tag ==> s[v.buf - 1 - |tag|..v.buf - 1] == tag)
    && (v.kind == TEXT ==> 1 !in s[v.buf..v.buf + v.buflen])
    && (v.kind == RAW ==>
          exists k, j :: 0 < k <= j < |s| && j + 1 + |tag| + 1 == v.buf && s[k - 1] == 61 && s[j] == 1
                         && Atoi(s[k..j]) == v.buflen)
  }

  lemma FieldIsSound(s: bytes, from: nat, tag: bytes, v: Value)
    requires FieldAt(s, from, tag, v)
    ensures Sound(s, tag, v)
  {
    if data :| TextAt(s, from, tag, v, data) {
      TextIsSound(s, from, tag, v, data);
    } else {
      var length :| RawAt(s, from, tag, v, length);
      RawIsSound(s, from, tag, v, length);
    }
  }

  lemma TextIsSound(s: bytes, from: nat, tag: bytes, v: Value, data: bytes)
    requires TextAt(s, from, tag, v, data)
    ensures Sound(s, tag, v)
  {
    hide StandsAt;
    StandsSplit(s, from, tag + [61], data + [1]);
    StandsSplit(s, from, tag, [61]);
    StandsSlice(s, from, tag);
    StandsByte(s, from + |tag|, 61);
    StandsSplit(s, v.buf, data, [1]);
    StandsSlice(s, v.buf, data);
    StandsByte(s, v.buf + |data|, 1);
  }

  lemma RawIsSound(s: bytes, from: nat, tag: bytes, v: Value, length: bytes)
    requires RawAt(s, from, tag, v, length)
    ensures Sound(s, tag, v)
  {
    hide StandsAt, Atoi;
    var k := from + |tag| + 2;
    var j := k + |length|;
    StandsSplit(s, from, [82] + tag + [61], length + [1]);
    StandsSplit(s, from, [82] + tag, [61]);
    StandsByte(s, k - 1, 61);
    StandsSplit(s, k, length, [1]);
    StandsSlice(s, k, length);
    StandsByte(s, j, 1);
    StandsSlice(s, j + 1, Compared(tag));
    assert s[k..j] == length;
  }

  lemma {:induction false} EntriesAreSound(s: bytes, from: nat, entries: seq<(bytes, Value)>, m: Values)
    requires FieldsFrom(s, from, entries) && forall tag :: tag in m ==> Sound(s, tag, m[tag])
    ensures forall tag :: tag in InsertAll(m, entries) ==> Sound(s, tag, InsertAll(m, entries)[tag])
    decreases |entries|
  {
    hide FieldAt, NoFieldAt, Sound;
    if entries == [] {
    } else {
      var (tag, v) := entries[0];
      FieldIsSound(s, from, tag, v);
      EntriesAreSound(s, v.buf + v.buflen + 1, entries[1..], Insert(m, tag, v));
    }
  }

  /** Whatever the buffer, if it is accepted every entry of the map describes bytes that are there. */
  lemma AcceptedIsSound(s: bytes)
    requires ParseFields(s, 0, map[], -1).0 == Accepted
    ensures var m := ParseFields(s, 0, map[], -1).1; forall tag :: tag in m ==> Sound(s, tag, m[tag])
  {
    var entries := AcceptedHasFields(s, 0, map[], -1);
    EntriesAreSound(s, 0, entries, map[]);
  }

  // ---------- Refusals ----------

  /** What makes a raw field wrong where its head is right. */
  lemma RawRefused(s: bytes, from: nat, tag: bytes, length: bytes, m: Values, bound: int)
    requires RawHeadAt(s, from, tag, length)
    ensures var at := from + |tag| + |length| + 3;
            && (|length| >= 9 ==> ParseField(s, from, m, bound) == Done(Rejected, m))
            && (|length| < 9 ==> DataRefused(s, at, tag, Atoi(length), ParseField(s, from, m, bound)))
  {
    hide Atoi, ParseRawData, ParseField, DataRefused, RawHeadAt;
    RawHeadRead(s, from, tag, length, m, bound);
    RawDataRefused(s, from + |tag| + |length| + 3, tag, Atoi(length), m, |length|);
  }

  /** The other tag, no equals sign behind it, a byte other than SOH behind the data; a length that leads outside. */
  ghost predicate DataRefused(s: bytes, at: nat, tag: bytes, rawlen: int, r: Step) {
    var eq := at + |tag|;
    && (at < |s| && tag != [] && s[at] != tag[0] ==> r.Done? && r.o == Rejected)
    && (eq < |s| && StandsAt(s, at, tag) && s[eq] != 61 ==> r.Done? && r.o == Rejected)
    && (eq < |s| && StandsAt(s, at, tag) && s[eq] == 61 ==>
          && (rawlen < 0 ==> r.Done? && r.o == SteppedBack)
          && (rawlen >= 0 && eq + 1 + rawlen >= |s| ==> r.Done? && r.o == OutOfBounds)
          && (rawlen >= 0 && eq + 1 + rawlen < |s| && s[eq + 1 + rawlen] != 1 ==> r.Done? && r.o == Rejected))
  }

  lemma RawDataRefused(s: bytes, at: nat, tag: bytes, rawlen: int, m: Values, bound: int)
    requires at <= |s|
    ensures DataRefused(s, at, tag, rawlen, ParseRawData(s, tag, at, rawlen, m, bound))
  {
    CompareExactly(tag, s, at);
    if at + |tag| <= |s| && StandsAt(s, at, tag) {
      StandsPrefix(s, at, tag, Compared(tag));
    }
  }

  lemma StandsPrefix(s: bytes, at: nat, tag: bytes, part: bytes)
    requires StandsAt(s, at, tag) && |part| <= |tag| && part == tag[..|part|]
    ensures StandsAt(s, at, part)
  {
  }
}
