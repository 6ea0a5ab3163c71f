/**
  The DFix tag/value stream: what the writer's fields look like, what the scanning parser makes of a
  buffer, and that the second undoes the first.
 */
module DFixSpec {
  import opened Bytes

  const SOH: byte := 1
  const EQUALS: byte := 61 // '='
  const RAW_MARK: byte := 82 // 'R'
  const MAXHEADERLEN: nat := 11

  datatype ValueType = TEXT | RAW

  /** Where a value lies in the parsed buffer. */
  datatype Value = Value(buf: nat, buflen: nat, kind: ValueType)

  type Values = map<bytes, Value>

  /** std::map::insert leaves an entry that is already there. */
  function Insert(m: Values, tag: bytes, v: Value): Values {
    if tag in m then m else m[tag := v]
  }

  // ---------- Decimal numbers ----------

  /** sprintf "%ld" of a size. */
  function Decimal(n: nat): (r: bytes)
    ensures r != []
    ensures forall k :: 0 <= k < |r| ==> 48 <= r[k] <= 57
  {
    if n < 10 then [48 + n] else Decimal(n / 10) + [48 + n % 10]
  }

  function Digits(s: bytes, acc: nat): nat {
    if s != [] && 48 <= s[0] <= 57 then Digits(s[1..], 10 * acc + s[0] - 48) else acc
  }

  /** atoi: leading white space, a sign, and digits up to the first character that is none. */
  function Atoi(s: bytes): int {
    if s == [] then 0
    else if s[0] == 32 || 9 <= s[0] <= 13 then Atoi(s[1..])
    else if s[0] == 45 then 0 - Digits(s[1..], 0)
    else if s[0] == 43 then Digits(s[1..], 0)
    else Digits(s, 0)
  }

  lemma {:induction false} DigitsAppend(s: bytes, d: byte, acc: nat)
    requires 48 <= d <= 57 && forall k :: 0 <= k < |s| ==> 48 <= s[k] <= 57
    ensures Digits(s + [d], acc) == 10 * Digits(s, acc) + d - 48
  {
    if s == [] {
      assert (s + [d])[1..] == [];
    } else {
      assert (s + [d])[1..] == s[1..] + [d];
      DigitsAppend(s[1..], d, 10 * acc + s[0] - 48);
    }
  }

  lemma {:induction false} DigitsOfDecimal(n: nat)
    ensures Digits(Decimal(n), 0) == n
  {
    if n < 10 {
      assert Decimal(n)[1..] == [];
    } else {
      DigitsOfDecimal(n / 10);
      DigitsAppend(Decimal(n / 10), 48 + n % 10, 0);
    }
  }

  /** The length text that the writer prints is the length that the parser reads. */
  lemma AtoiOfDecimal(n: nat)
    ensures Atoi(Decimal(n)) == n
  {
    DigitsOfDecimal(n);
  }

  function Pow10(k: nat): nat {
    if k == 0 then 1 else 10 * Pow10(k - 1)
  }

  lemma {:induction false} DecimalLength(n: nat, k: nat)
    requires k > 0
    ensures |Decimal(n)| <= k <==> n < Pow10(k)
  {
    if n >= 10 {
      if k > 1 {
        DecimalLength(n / 10, k - 1);
      } else {
        assert Pow10(1) == 10 * Pow10(0);
      }
    } else {
      Pow10AtLeast(k);
    }
  }

  lemma {:induction false} Pow10AtLeast(k: nat)
    requires k > 0
    ensures Pow10(k) >= 10
  {
    if k <= 1 {
    } else {
      Pow10AtLeast(k - 1);
    }
  }

  // ---------- The parser ----------

  /** First position from i on that holds c, or the length. */
  function Find(s: bytes, i: nat, c: byte): (r: nat)
    requires i <= |s|
    ensures i <= r <= |s|
    ensures r < |s| ==> s[r] == c
    ensures forall k :: i <= k < r ==> s[k] != c
    decreases |s| - i
  {
    if i == |s| || s[i] == c then i else Find(s, i + 1, c)
  }

  /**
    How a parse ends: true, false, a read outside the buffer (or of a variable never set), or a
    negative length, which moves the cursor back over bytes already read and is not followed further.
   */
  datatype Outcome = Accepted | Rejected | OutOfBounds | SteppedBack

  datatype Compared = Same | Different | Overrun

  /** strncmp of the whole tag with the buffer at position at: it stops at a common NUL. */
  function Compare(tag: bytes, s: bytes, at: nat): Compared
    decreases |tag|
  {
    if tag == [] then Same
    else if at >= |s| then Overrun
    else if tag[0] != s[at] then Different
    else if tag[0] == 0 then Same
    else Compare(tag[1..], s, at + 1)
  }

  /**
    One field from position from: where the next one starts, or how parsing ends here. The two data bounds are
    variables of the whole parse: bound is how far apart they were left, or -1 while they have never been set.
   */
  datatype Step = Next(at: nat, m: Values, bound: int) | Done(o: Outcome, m: Values)

  function ParseTextField(s: bytes, tag: bytes, tagend: nat, m: Values): (r: Step)
    requires tagend < |s|
    ensures r.Next? ==> tagend < r.at <= |s|
  {
    var end := Find(s, tagend + 1, SOH);
    if end == |s| then Done(Accepted, m)
    else Next(end + 1, Insert(m, tag, Value(tagend + 1, end - (tagend + 1), TEXT)), end - (tagend + 1))
  }

  /**
    tag is without its R. A length text that no SOH ends leaves the data bounds of the field before: nine or more
    bytes apart they end the parse with false, otherwise it reads on behind the buffer.
   */
  function ParseRawField(s: bytes, tag: bytes, tagend: nat, m: Values, bound: int): (r: Step)
    requires tagend < |s| && s[tagend] == EQUALS
    ensures r.Next? ==> tagend < r.at <= |s|
  {
    var end := Find(s, tagend, SOH);
    if end == |s| then Done(if bound >= 9 then Rejected else OutOfBounds, m)
    else if end - (tagend + 1) >= 9 then Done(Rejected, m)
    else ParseRawData(s, tag, end + 1, Atoi(s[tagend + 1..end]), m, end - (tagend + 1))
  }

  function ParseRawData(s: bytes, tag: bytes, at: nat, rawlen: int, m: Values, bound: int): (r: Step)
    requires at <= |s|
    ensures r.Next? ==> at < r.at <= |s|
  {
    match Compare(tag, s, at)
    case Overrun => Done(OutOfBounds, m)
    case Different => Done(Rejected, m)
    case Same =>
      var eq := at + |tag|;
      if eq >= |s| then Done(OutOfBounds, m)
      else if s[eq] != EQUALS then Done(Rejected, m)
      else if rawlen < 0 then Done(SteppedBack, m)
      else
        var cur := eq + 1 + rawlen;
        var m' := Insert(m, tag, Value(eq + 1, rawlen, RAW));
        if cur >= |s| then Done(OutOfBounds, m')
        else if s[cur] != SOH then Done(Rejected, m')
        else Next(cur + 1, m', bound)
  }

  function ParseField(s: bytes, from: nat, m: Values, bound: int): (r: Step)
    requires from <= |s|
    ensures r.Next? ==> from < r.at <= |s|
  {
    var tagend := Find(s, from, EQUALS);
    if tagend == |s| then Done(Accepted, m)
    else
      var tag := s[from..tagend];
      if tag == [] || tag[0] != RAW_MARK then ParseTextField(s, tag, tagend, m)
      else ParseRawField(s, tag[1..], tagend, m, bound)
  }

  function ParseFields(s: bytes, from: nat, m: Values, bound: int): (Outcome, Values)
    requires from <= |s|
    decreases |s| - from
  {
    match ParseField(s, from, m, bound)
    case Done(o, m') => (o, m')
    case Next(at, m', bound') => ParseFields(s, at, m', bound')
  }

  // ---------- The writer's fields ----------

  datatype Field = TextField(tag: bytes, data: bytes) | RawField(tag: bytes, data: bytes)

  function KindOf(f: Field): ValueType {
    if f.TextField? then TEXT else RAW
  }

  function Encode(f: Field): bytes {
    match f
    case TextField(tag, data) => tag + [EQUALS] + data + [SOH]
    case RawField(tag, data) =>
      [RAW_MARK] + tag + [EQUALS] + Decimal(|data|) + [SOH] + tag + [EQUALS] + data + [SOH]
  }

  function EncodeAll(fields: seq<Field>): bytes {
    if fields == [] then [] else Encode(fields[0]) + EncodeAll(fields[1..])
  }

  lemma {:induction false} EncodeAllAppend(fields: seq<Field>, f: Field)
    ensures EncodeAll(fields + [f]) == EncodeAll(fields) + Encode(f)
  {
    if fields == [] {
      assert (fields + [f])[1..] == [];
    } else {
      assert (fields + [f])[1..] == fields[1..] + [f];
      EncodeAllAppend(fields[1..], f);
    }
  }

  /** The length header in front of the body. */
  function Header(bodyLength: nat): Field {
    TextField([76], Decimal(bodyLength)) // L=<length>
  }

  /**
    The fields that read back: tags are C strings without '=', a text tag does not start with the raw
    mark, text has no SOH, and raw data is short enough for its length to have eight digits.
   */
  predicate Readable(f: Field) {
    && EQUALS !in f.tag && 0 !in f.tag
    && match f
       case TextField(tag, data) => (tag == [] || tag[0] != RAW_MARK) && SOH !in data
       case RawField(_, data) => |data| < 100_000_000
  }

  /** The first field with a tag. */
  function First(fields: seq<Field>, tag: bytes): (r: int)
    ensures -1 <= r < |fields|
    ensures r >= 0 ==> fields[r].tag == tag
  {
    if fields == [] then -1
    else if fields[0].tag == tag then 0
    else
      var r := First(fields[1..], tag);
      if r < 0 then -1 else r + 1
  }

  // ---------- Reading back ----------

  /** The part stands in s at from. */
  ghost predicate StandsAt(s: bytes, from: nat, part: bytes) {
    from + |part| <= |s| && forall k :: 0 <= k < |part| ==> s[from + k] == part[k]
  }

  lemma StandsSplit(s: bytes, from: nat, a: bytes, b: bytes)
    requires StandsAt(s, from, a + b)
    ensures StandsAt(s, from, a) && StandsAt(s, from + |a|, b)
  {
    assert forall k :: 0 <= k < |a| ==> (a + b)[k] == a[k];
    assert forall k :: 0 <= k < |b| ==> (a + b)[|a| + k] == b[k];
    forall k | 0 <= k < |b|
      ensures s[from + |a| + k] == b[k]
    {
      assert s[from + (|a| + k)] == (a + b)[|a| + k];
    }
  }

  lemma StandsByte(s: bytes, at: nat, c: byte)
    requires StandsAt(s, at, [c])
    ensures at < |s| && s[at] == c
  {
    assert s[at + 0] == [c][0];
  }

  lemma StandsSlice(s: bytes, from: nat, part: bytes)
    requires StandsAt(s, from, part)
    ensures s[from..from + |part|] == part
  {
  }

  /** Searching passes over a part that does not have the byte. */
  lemma {:induction false} FindBehind(s: bytes, i: nat, part: bytes, c: byte)
    requires StandsAt(s, i, part + [c]) && c !in part
    ensures Find(s, i, c) == i + |part|
    decreases |part|
  {
    if part == [] {
      assert s[i + 0] == ([] + [c])[0];
    } else {
      assert s[i + 0] == (part + [c])[0] == part[0] && part[0] in part;
      assert part + [c] == [part[0]] + (part[1..] + [c]);
      StandsSplit(s, i, [part[0]], part[1..] + [c]);
      FindBehind(s, i + 1, part[1..], c);
    }
  }

  lemma {:induction false} CompareSame(tag: bytes, s: bytes, at: nat)
    requires 0 !in tag && StandsAt(s, at, tag)
    ensures Compare(tag, s, at) == Same
  {
    if tag == [] {
    } else {
      assert s[at + 0] == tag[0] && tag[0] in tag;
      assert tag == [tag[0]] + tag[1..];
      StandsSplit(s, at, [tag[0]], tag[1..]);
      CompareSame(tag[1..], s, at + 1);
    }
  }

  /** Position and length of the data of a field that starts at from. */
  function ValueOf(f: Field, from: nat): Value {
    match f
    case TextField(tag, data) => Value(from + |tag| + 1, |data|, TEXT)
    case RawField(tag, data) => Value(from + 2 * |tag| + |Decimal(|data|)| + 4, |data|, RAW)
  }

  /** How far apart the data bounds are left behind the field. */
  function BoundOf(f: Field): nat {
    match f
    case TextField(_, data) => |data|
    case RawField(_, data) => |Decimal(|data|)|
  }

  lemma TextFieldText(f: Field)
    requires f.TextField?
    ensures Encode(f) == (f.tag + [EQUALS]) + (f.data + [SOH])
    ensures |Encode(f)| == |f.tag| + |f.data| + 2
  {
  }

  lemma ParseTextBack(s: bytes, from: nat, f: Field, m: Values, bound: int)
    requires f.TextField? && Readable(f) && StandsAt(s, from, Encode(f))
    ensures ParseField(s, from, m, bound) == Next(from + |Encode(f)|, Insert(m, f.tag, ValueOf(f, from)), BoundOf(f))
    ensures StandsAt(s, ValueOf(f, from).buf, f.data)
  {
    hide Insert, StandsAt, Encode;
    var tagend := from + |f.tag|;
    TextFieldText(f);
    StandsSplit(s, from, f.tag + [EQUALS], f.data + [SOH]);
    FindBehind(s, from, f.tag, EQUALS);
    StandsSplit(s, from, f.tag, [EQUALS]);
    StandsByte(s, tagend, EQUALS);
    StandsSlice(s, from, f.tag);
    FindBehind(s, tagend + 1, f.data, SOH);
    StandsSplit(s, tagend + 1, f.data, [SOH]);
    StandsByte(s, tagend + 1 + |f.data|, SOH);
  }

  lemma RawFieldText(f: Field)
    requires f.RawField?
    ensures var digits := Decimal(|f.data|);
            && Encode(f) == ([RAW_MARK] + f.tag + [EQUALS]) + ((digits + [SOH]) + (f.tag + [EQUALS] + f.data + [SOH]))
            && |Encode(f)| == 2 * |f.tag| + |digits| + |f.data| + 5
  {
  }

  lemma ParseRawBack(s: bytes, from: nat, f: Field, m: Values, bound: int)
    requires f.RawField? && Readable(f) && StandsAt(s, from, Encode(f))
    ensures ParseField(s, from, m, bound) == Next(from + |Encode(f)|, Insert(m, f.tag, ValueOf(f, from)), BoundOf(f))
    ensures StandsAt(s, ValueOf(f, from).buf, f.data)
  {
    hide Insert, StandsAt, Encode, ParseRawField;
    var name := [RAW_MARK] + f.tag;
    RawFieldText(f);
    StandsSplit(s, from, name + [EQUALS], (Decimal(|f.data|) + [SOH]) + (f.tag + [EQUALS] + f.data + [SOH]));
    FindBehind(s, from, name, EQUALS);
    StandsSplit(s, from, name, [EQUALS]);
    StandsSlice(s, from, name);
    StandsByte(s, from + |name|, EQUALS);
    assert name[1..] == f.tag;
    ParseRawFieldBack(s, f.tag, from + |name|, f.data, m, bound);
  }

  lemma ParseRawFieldBack(s: bytes, tag: bytes, tagend: nat, data: bytes, m: Values, bound: int)
    requires 0 !in tag && |data| < 100_000_000 && tagend < |s| && s[tagend] == EQUALS
    requires StandsAt(s, tagend + 1, (Decimal(|data|) + [SOH]) + (tag + [EQUALS] + data + [SOH]))
    ensures var d := tagend + |Decimal(|data|)| + |tag| + 3;
            && ParseRawField(s, tag, tagend, m, bound)
               == Next(d + |data| + 1, Insert(m, tag, Value(d, |data|, RAW)), |Decimal(|data|)|)
            && StandsAt(s, d, data)
  {
    hide ParseRawData, Decimal, Insert, Atoi, StandsAt;
    var digits := Decimal(|data|);
    StandsSplit(s, tagend + 1, digits + [SOH], tag + [EQUALS] + data + [SOH]);
    FindBehind(s, tagend + 1, digits, SOH);
    assert Find(s, tagend, SOH) == Find(s, tagend + 1, SOH);
    StandsSplit(s, tagend + 1, digits, [SOH]);
    StandsSlice(s, tagend + 1, digits);
    Pow10Eight();
    DecimalLength(|data|, 8);
    AtoiOfDecimal(|data|);
    ParseRawDataBack(s, tag, tagend + |digits| + 2, data, m, |digits|);
  }

  lemma Pow10Eight()
    ensures Pow10(8) == 100_000_000
  {
    assert Pow10(4) == 10_000;
    assert Pow10(8) == 10 * (10 * (10 * (10 * Pow10(4))));
  }

  lemma ParseRawDataBack(s: bytes, tag: bytes, at: nat, data: bytes, m: Values, bound: int)
    requires 0 !in tag && StandsAt(s, at, tag + [EQUALS] + data + [SOH])
    ensures var d := at + |tag| + 1;
            && ParseRawData(s, tag, at, |data|, m, bound)
               == Next(d + |data| + 1, Insert(m, tag, Value(d, |data|, RAW)), bound)
            && StandsAt(s, d, data)
  {
    var head := tag + [EQUALS];
    assert tag + [EQUALS] + data + [SOH] == head + (data + [SOH]);
    StandsSplit(s, at, head, data + [SOH]);
    StandsSplit(s, at, tag, [EQUALS]);
    StandsByte(s, at + |tag|, EQUALS);
    StandsSplit(s, at + |head|, data, [SOH]);
    StandsByte(s, at + |head| + |data|, SOH);
    CompareSame(tag, s, at);
  }

  lemma ParseFieldBack(s: bytes, from: nat, f: Field, m: Values, bound: int)
    requires Readable(f) && StandsAt(s, from, Encode(f))
    ensures ParseField(s, from, m, bound) == Next(from + |Encode(f)|, Insert(m, f.tag, ValueOf(f, from)), BoundOf(f))
    ensures var v := ValueOf(f, from); v.kind == KindOf(f) && v.buflen == |f.data| && StandsAt(s, v.buf, f.data)
  {
    if f.TextField? {
      ParseTextBack(s, from, f, m, bound);
    } else {
      ParseRawBack(s, from, f, m, bound);
    }
  }

  /** The map holds, for every tag, the first of these fields with it: its type and its very bytes in s. */
  ghost predicate Holds(s: bytes, m: Values, fields: seq<Field>) {
    && (forall tag :: tag in m <==> First(fields, tag) >= 0)
    && (forall tag :: tag in m ==> var v, f := m[tag], fields[First(fields, tag)];
                                   v.kind == KindOf(f) && v.buflen == |f.data| && StandsAt(s, v.buf, f.data))
  }

  lemma {:induction false} FirstAppend(fields: seq<Field>, f: Field, tag: bytes)
    ensures First(fields + [f], tag) == if First(fields, tag) >= 0 then First(fields, tag)
                                        else if f.tag == tag then |fields| else -1
  {
    if fields == [] {
      assert [f][1..] == [];
    } else {
      assert (fields + [f])[1..] == fields[1..] + [f];
      FirstAppend(fields[1..], f, tag);
    }
  }

  lemma HoldsInsert(s: bytes, m: Values, fields: seq<Field>, f: Field, v: Value)
    requires Holds(s, m, fields)
    requires v.kind == KindOf(f) && v.buflen == |f.data| && StandsAt(s, v.buf, f.data)
    ensures Holds(s, Insert(m, f.tag, v), fields + [f])
  {
    forall tag
      ensures First(fields + [f], tag) == if tag in m then First(fields, tag) else if f.tag == tag then |fields| else -1
    {
      FirstAppend(fields, f, tag);
    }
  }

  lemma ParseAtEnd(s: bytes, m: Values, bound: int)
    ensures ParseFields(s, |s|, m, bound) == (Accepted, m)
  {
  }

  /** Parsing from the start of some encoded fields up to the end of the buffer. */
  lemma {:induction false} ParseEncoded(s: bytes, from: nat, done: seq<Field>, more: seq<Field>, m: Values, bound: int)
    requires from <= |s| && |s| == from + |EncodeAll(more)| && StandsAt(s, from, EncodeAll(more))
    requires (forall k :: 0 <= k < |more| ==> Readable(more[k])) && Holds(s, m, done)
    ensures ParseFields(s, from, m, bound).0 == Accepted
    ensures Holds(s, ParseFields(s, from, m, bound).1, done + more)
    decreases |more|
  {
    hide ParseField, StandsAt, Holds, Encode, Insert, ValueOf, BoundOf, Readable;
    if more == [] {
      ParseAtEnd(s, m, bound);
      assert done + more == done;
    } else {
      var f := more[0];
      StandsSplit(s, from, Encode(f), EncodeAll(more[1..]));
      ParseFieldBack(s, from, f, m, bound);
      HoldsInsert(s, m, done, f, ValueOf(f, from));
      assert done + more == (done + [f]) + more[1..];
      ParseEncoded(s, from + |Encode(f)|, done + [f], more[1..], Insert(m, f.tag, ValueOf(f, from)), BoundOf(f));
    }
  }

  /** What Flush hands out: the length header and the body. */
  function Stream(fields: seq<Field>): bytes {
    Encode(Header(|EncodeAll(fields)|)) + EncodeAll(fields)
  }

  /**
    A flushed stream reads back: parsing succeeds, L has the decimal length of the body, every other
    tag has the bytes and the type of the first field that was added under it, and no other tag is found.
   */
  lemma StreamReadsBack(fields: seq<Field>)
    requires forall k :: 0 <= k < |fields| ==> Readable(fields[k])
    ensures var (o, m) := ParseFields(Stream(fields), 0, map[], -1);
            o == Accepted && Holds(Stream(fields), m, [Header(|EncodeAll(fields)|)] + fields)
  {
    var s, header := Stream(fields), Header(|EncodeAll(fields)|);
    var all := [header] + fields;
    assert all[0] == header && all[1..] == fields;
    assert EncodeAll(all) == s;
    assert [] + all == all;
    ParseEncoded(s, 0, [], all, map[], -1);
  }
}
