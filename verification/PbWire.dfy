/**
  The Protocol Buffers wire format ("Encoding": Base 128 Varints, Message Structure), and the tag loop
  that every generated parser is an optimised form of, for any message type.
 */
module PbWire {
  import opened Bytes

  datatype Option<T> = None | Some(value: T)

  const WORD32: nat := 0x1_0000_0000
  const WORD64: nat := 0x1_0000_0000_0000_0000

  // ---------- Varints ----------

  function EncodeVarint(n: nat): (r: bytes)
    ensures r != []
  {
    if n < 128 then [n] else [128 + n % 128] + EncodeVarint(n / 128)
  }

  datatype Varint = NoVarint | Varint(n: nat, rest: bytes)

  /** A varint of at most max bytes, as an unbounded number. */
  function DecodeVarint(s: bytes, max: nat): (r: Varint)
    ensures r.Varint? ==> |r.rest| < |s|
    decreases max
  {
    if max == 0 || s == [] then NoVarint
    else if s[0] < 128 then Varint(s[0], s[1..])
    else
      match DecodeVarint(s[1..], max - 1)
      case NoVarint => NoVarint
      case Varint(n, rest) => Varint(s[0] - 128 + 128 * n, rest)
  }

  /** ReadVarint64: ten bytes at most, bits beyond 64 are dropped. */
  function ReadVarint(s: bytes): (r: Varint)
    ensures r.Varint? ==> |r.rest| < |s| && r.n < WORD64
  {
    match DecodeVarint(s, 10)
    case NoVarint => NoVarint
    case Varint(n, rest) => Varint(n % WORD64, rest)
  }

  /** n fits in k groups of seven bits. */
  function Power128(k: nat): nat {
    if k == 0 then 1 else 128 * Power128(k - 1)
  }

  lemma {:induction false} DecodeUndoesEncode(n: nat, max: nat, rest: bytes)
    requires max > 0 && n < Power128(max)
    ensures DecodeVarint(EncodeVarint(n) + rest, max) == Varint(n, rest)
  {
    var s := EncodeVarint(n) + rest;
    if n < 128 {
      assert s[1..] == rest;
    } else {
      assert s[1..] == EncodeVarint(n / 128) + rest;
      DecodeUndoesEncode(n / 128, max - 1, rest);
    }
  }

  lemma TenGroups()
    ensures Power128(10) >= WORD64
  {
    assert Power128(3) == 0x20_0000;
    assert Power128(6) == 128 * (128 * (128 * Power128(3)));
    assert Power128(9) == 128 * (128 * (128 * Power128(6)));
  }

  lemma ReadUndoesEncode(n: nat, rest: bytes)
    requires n < WORD64
    ensures ReadVarint(EncodeVarint(n) + rest) == Varint(n, rest)
  {
    hide EncodeVarint, DecodeVarint, Power128;
    TenGroups();
    DecodeUndoesEncode(n, 10, rest);
  }

  /** Bytes behind a varint do not change what is read. */
  lemma {:induction false} DecodeExtends(s: bytes, max: nat, more: bytes)
    requires DecodeVarint(s, max).Varint?
    ensures DecodeVarint(s + more, max) == Varint(DecodeVarint(s, max).n, DecodeVarint(s, max).rest + more)
  {
    if s[0] < 128 {
      assert (s + more)[1..] == s[1..] + more;
    } else {
      DecodeExtends(s[1..], max - 1, more);
      assert (s + more)[1..] == s[1..] + more;
    }
  }

  /** The size functions count groups of seven bits. */
  function VarintSize(n: nat): nat {
    if n < 128 then 1 else 1 + VarintSize(n / 128)
  }

  lemma {:induction false} VarintSizeCorrect(n: nat)
    ensures VarintSize(n) == |EncodeVarint(n)|
  {
    if n < 128 {
    } else {
      VarintSizeCorrect(n / 128);
    }
  }

  // ---------- Fields ----------

  datatype Payload = Number(n: nat) | Eight(b: bytes) | Chunk(b: bytes) | Four(b: bytes)

  datatype Field = Field(number: nat, payload: Payload)

  function WireType(p: Payload): nat {
    match p
    case Number(_) => 0
    case Eight(_) => 1
    case Chunk(_) => 2
    case Four(_) => 5
  }

  function EncodePayload(p: Payload): bytes {
    match p
    case Number(n) => EncodeVarint(n)
    case Chunk(b) => EncodeVarint(|b|) + b
    case Eight(b) => b
    case Four(b) => b
  }

  function EncodeField(f: Field): bytes {
    EncodeVarint(8 * f.number + WireType(f.payload)) + EncodePayload(f.payload)
  }

  function EncodeFields(fs: seq<Field>): bytes {
    if fs == [] then [] else EncodeField(fs[0]) + EncodeFields(fs[1..])
  }

  lemma {:induction false} EncodeFieldsAppend(a: seq<Field>, b: seq<Field>)
    ensures EncodeFields(a + b) == EncodeFields(a) + EncodeFields(b)
  {
    if a == [] {
      assert a + b == b;
    } else {
      assert (a + b)[1..] == a[1..] + b;
      EncodeFieldsAppend(a[1..], b);
    }
  }

  /** What the field types hold: 29-bit numbers with a tag other than 0, 64-bit varints, lengths positive as an int. */
  predicate ValidField(f: Field) {
    && f.number < 0x2000_0000 && 8 * f.number + WireType(f.payload) > 0
    && match f.payload
       case Number(n) => n < WORD64
       case Chunk(b) => |b| < 0x8000_0000
       case Eight(b) => |b| == 8
       case Four(b) => |b| == 4
  }

  // ---------- Reading one field ----------

  datatype ReadPayload = NoPayload | GotPayload(p: Payload, rest: bytes)

  function Take(s: bytes, n: nat): (r: Option<(bytes, bytes)>)
    ensures r.Some? ==> |r.value.1| <= |s|
  {
    if |s| < n then None else Some((s[..n], s[n..]))
  }

  function DecodePayload(wireType: nat, s: bytes): (r: ReadPayload)
    ensures r.GotPayload? ==> |r.rest| <= |s| && WireType(r.p) == wireType
  {
    match wireType
    case 0 => (match ReadVarint(s) case NoVarint => NoPayload case Varint(n, rest) => GotPayload(Number(n), rest))
    case 1 => (match Take(s, 8) case None => NoPayload case Some(t) => GotPayload(Eight(t.0), t.1))
    case 2 =>
      (match ReadVarint(s)
       case NoVarint => NoPayload
       case Varint(n, rest) =>
         var length := n % WORD32;
         if length >= 0x8000_0000 then NoPayload
         else match Take(rest, length) case None => NoPayload case Some(t) => GotPayload(Chunk(t.0), t.1))
    case 5 => (match Take(s, 4) case None => NoPayload case Some(t) => GotPayload(Four(t.0), t.1))
    case _ => NoPayload
  }

  /** A tag, or 0 at the end, at a malformed varint and for a tag that is 0 in 32 bits. */
  function ReadTag(s: bytes): (r: (nat, bytes))
    ensures r.0 < WORD32 && |r.1| <= |s| && (r.0 != 0 ==> |r.1| < |s|)
  {
    match ReadVarint(s)
    case NoVarint => (0, s)
    case Varint(n, rest) => (n % WORD32, rest)
  }

  const END_GROUP: nat := 4

  /** Stop: the loop ends with true. Fail: it ends with false. */
  datatype Next = Stop | Fail | Got(f: Field, rest: bytes)

  function ReadField(s: bytes): (r: Next)
    ensures r.Got? ==> |r.rest| < |s|
  {
    var (tag, rest) := ReadTag(s);
    if tag == 0 || tag % 8 == END_GROUP then Stop
    else
      match DecodePayload(tag % 8, rest)
      case NoPayload => Fail
      case GotPayload(p, rest') => Got(Field(tag / 8, p), rest')
  }

  lemma TakeAll(b: bytes, rest: bytes)
    ensures Take(b + rest, |b|) == Some((b, rest))
  {
    assert (b + rest)[..|b|] == b && (b + rest)[|b|..] == rest;
  }

  lemma DecodePayloadOf(p: Payload, rest: bytes)
    requires ValidField(Field(1, p))
    ensures DecodePayload(WireType(p), EncodePayload(p) + rest) == GotPayload(p, rest)
  {
    hide EncodeVarint, ReadVarint, Take;
    match p
    case Number(n) => ReadUndoesEncode(n, rest);
    case Chunk(b) =>
      ReadUndoesEncode(|b|, b + rest);
      assert EncodePayload(p) + rest == EncodeVarint(|b|) + (b + rest);
      TakeAll(b, rest);
    case Eight(b) => TakeAll(b, rest);
    case Four(b) => TakeAll(b, rest);
  }

  lemma ReadFieldOf(f: Field, rest: bytes)
    requires ValidField(f)
    ensures ReadField(EncodeField(f) + rest) == Got(f, rest)
  {
    hide DecodePayload, EncodePayload, EncodeVarint, ReadVarint;
    var tag := 8 * f.number + WireType(f.payload);
    var body := EncodePayload(f.payload) + rest;
    assert EncodeField(f) + rest == EncodeVarint(tag) + body;
    ReadUndoesEncode(tag, body);
    DecodePayloadOf(f.payload, rest);
  }

  lemma DecodePayloadExtends(wireType: nat, s: bytes, more: bytes)
    requires DecodePayload(wireType, s).GotPayload?
    ensures var r := DecodePayload(wireType, s);
            DecodePayload(wireType, s + more) == GotPayload(r.p, r.rest + more)
  {
    if wireType == 0 || wireType == 2 {
      DecodeExtends(s, 10, more);
    }
    if wireType == 2 {
      TakeExtends(ReadVarint(s).rest, ReadVarint(s).n % WORD32, more);
    } else if wireType == 1 {
      TakeExtends(s, 8, more);
    } else if wireType == 5 {
      TakeExtends(s, 4, more);
    }
  }

  lemma TakeExtends(s: bytes, n: nat, more: bytes)
    requires n <= |s|
    ensures Take(s + more, n) == Some((s[..n], s[n..] + more))
  {
    assert (s + more)[..n] == s[..n] && (s + more)[n..] == s[n..] + more;
  }

  /** A field that was read is read again when more input follows. */
  lemma ReadFieldExtends(s: bytes, more: bytes)
    requires ReadField(s).Got?
    ensures ReadField(s + more) == Got(ReadField(s).f, ReadField(s).rest + more)
  {
    hide DecodePayload;
    DecodeExtends(s, 10, more);
    var (tag, rest) := ReadTag(s);
    DecodePayloadExtends(tag % 8, rest, more);
  }

  // ---------- The tag loop ----------

  /**
    How a parse ends. ok is what the generated function returns; rest is the input not consumed, so a
    parse of a whole message also needs rest to be empty. A failed parse leaves the message unspecified.
   */
  datatype Result<M> = Failed | Ended(m: M, rest: bytes)

  /** Read a field, apply it to the message, go on. */
  function Loop<M>(s: bytes, m: M, apply: (M, Field) -> Option<M>): Result<M>
    decreases |s|
  {
    match ReadField(s)
    case Stop => Ended(m, s)
    case Fail => Failed
    case Got(f, rest) =>
      match apply(m, f)
      case None => Failed
      case Some(m') => Loop(rest, m', apply)
  }

  /** The whole input was consumed. */
  predicate Complete<M>(r: Result<M>) {
    r.Ended? && r.rest == []
  }

  function ApplyAll<M>(m: M, fs: seq<Field>, apply: (M, Field) -> Option<M>): Option<M> {
    if fs == [] then Some(m)
    else
      match apply(m, fs[0])
      case None => None
      case Some(m') => ApplyAll(m', fs[1..], apply)
  }

  lemma LoopAtEnd<M>(m: M, apply: (M, Field) -> Option<M>)
    ensures Loop([], m, apply) == Ended(m, [])
  {
  }

  /** Encoded fields are read one by one and applied in order. */
  lemma {:induction false} LoopOfFields<M>(fs: seq<Field>, m: M, apply: (M, Field) -> Option<M>)
    requires forall k :: 0 <= k < |fs| ==> ValidField(fs[k])
    ensures Loop(EncodeFields(fs), m, apply)
         == match ApplyAll(m, fs, apply) case None => Failed case Some(m') => Ended(m', [])
    decreases |fs|
  {
    hide ReadField, EncodeField;
    if fs == [] {
      LoopAtEnd(m, apply);
    } else {
      ReadFieldOf(fs[0], EncodeFields(fs[1..]));
      match apply(m, fs[0])
      case None =>
      case Some(m') => LoopOfFields(fs[1..], m', apply);
    }
  }

  /** Parsing a concatenation continues with the second part where the first one was complete. */
  lemma {:induction false} LoopConcat<M>(a: bytes, b: bytes, m: M, apply: (M, Field) -> Option<M>)
    requires Complete(Loop(a, m, apply))
    ensures Loop(a + b, m, apply) == Loop(b, Loop(a, m, apply).m, apply)
    decreases |a|
  {
    hide ReadField;
    if ReadField(a).Stop? {
      assert a == [] && a + b == b;
    } else {
      ReadFieldExtends(a, b);
      var next := ReadField(a);
      LoopConcat(next.rest, b, apply(m, next.f).value, apply);
    }
  }

  /** Applying a field and merging into a base commute. */
  ghost predicate Merges<M(!new)>(merge: (M, M) -> M, apply: (M, Field) -> Option<M>) {
    forall m, x, f :: match apply(x, f)
                      case None => apply(merge(m, x), f) == None
                      case Some(x') => apply(merge(m, x), f) == Some(merge(m, x'))
  }

  /** Parsing onto a merged message is merging the parsed message. */
  lemma {:induction false} LoopMerges<M(!new)>(s: bytes, m: M, x: M, merge: (M, M) -> M, apply: (M, Field) -> Option<M>)
    requires Merges(merge, apply)
    ensures Loop(s, merge(m, x), apply)
         == match Loop(s, x, apply) case Failed => Failed case Ended(y, rest) => Ended(merge(m, y), rest)
    decreases |s|
  {
    hide ReadField;
    var next := ReadField(s);
    if !next.Got? {
    } else {
      match apply(x, next.f)
      case None => assert apply(merge(m, x), next.f) == None;
      case Some(x') =>
        assert apply(merge(m, x), next.f) == Some(merge(m, x'));
        LoopMerges(next.rest, m, x', merge, apply);
    }
  }

  /** Two complete encodings, one after the other, parse to the merge of what each parses to. */
  lemma ConcatIsMerge<M(!new)>(a: bytes, b: bytes, empty: M, merge: (M, M) -> M, apply: (M, Field) -> Option<M>)
    requires Merges(merge, apply) && forall m :: merge(m, empty) == m
    requires Complete(Loop(a, empty, apply)) && Complete(Loop(b, empty, apply))
    ensures Loop(a + b, empty, apply)
         == Ended(merge(Loop(a, empty, apply).m, Loop(b, empty, apply).m), [])
  {
    var x := Loop(a, empty, apply).m;
    LoopConcat(a, b, empty, apply);
    assert merge(x, empty) == x;
    LoopMerges(b, x, empty, merge, apply);
  }
}
