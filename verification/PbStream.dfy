/** The coded input stream and the array writers that generated message code calls, with their state. */
module PbStream {
  import opened Bytes
  import opened Concat
  import W = PbWire
  import opened PbWire

  /** Fixed-width payloads have their width. */
  predicate FixedSizes(f: Field) {
    (f.payload.Eight? ==> |f.payload.b| == 8) && (f.payload.Four? ==> |f.payload.b| == 4)
  }

  // ---------- What is left to do behind a tag ----------

  /** The tag loop from a point where the tag is already consumed. */
  function AfterTag<M>(tag: nat, s: bytes, m: M, apply: (M, Field) -> Option<M>): Result<M> {
    match DecodePayload(tag % 8, s)
    case NoPayload => Failed
    case GotPayload(p, rest) =>
      match apply(m, Field(tag / 8, p))
      case None => Failed
      case Some(m') => Loop(rest, m', apply)
  }

  lemma LoopReadsTag<M>(s: bytes, m: M, apply: (M, Field) -> Option<M>)
    ensures var t := ReadTag(s);
            Loop(s, m, apply) == if t.0 == 0 || t.0 % 8 == END_GROUP then Ended(m, s) else AfterTag(t.0, t.1, m, apply)
  {
    hide DecodePayload, ReadTag;
  }

  lemma AfterField<M>(tag: nat, s: bytes, m: M, apply: (M, Field) -> Option<M>, p: Payload, rest: bytes, m': M)
    requires DecodePayload(tag % 8, s) == GotPayload(p, rest) && apply(m, Field(tag / 8, p)) == Some(m')
    ensures AfterTag(tag, s, m, apply) == Loop(rest, m', apply)
  {
    hide DecodePayload;
  }

  lemma AfterBadField<M>(tag: nat, s: bytes, m: M, apply: (M, Field) -> Option<M>, p: Payload, rest: bytes)
    requires DecodePayload(tag % 8, s) == GotPayload(p, rest) && apply(m, Field(tag / 8, p)) == None
    ensures AfterTag(tag, s, m, apply) == Failed
  {
  }

  /** How a case of the tag switch is left: break, return true, return false. */
  datatype Flow = Break | ReturnTrue | ReturnFalse

  /** Leaving a case this way with this message and input is what the tag loop comes to. */
  ghost predicate Leaves<M>(flow: Flow, r: Result<M>, m: M, rest: bytes, legitimateEnd: bool,
                            apply: (M, Field) -> Option<M>)
  {
    match flow
    case Break => r == Loop(rest, m, apply)
    case ReturnTrue => r.Ended? && r.m == m && (legitimateEnd <==> r.rest == [])
    case ReturnFalse => r == Failed
  }

  /** What a varint contributes when it is shifted in above the bits read so far. */
  function Shift(sum: nat, scale: nat, v: Varint): Varint {
    match v
    case NoVarint => NoVarint
    case Varint(m, rest) => Varint(sum + scale * m, rest)
  }

  lemma ShiftNone(v: Varint)
    ensures Shift(0, 1, v) == v
  {
  }

  lemma ShiftMore(sum: nat, scale: nat, s: bytes, max: nat)
    requires max > 0 && s != [] && s[0] >= 128
    ensures Shift(sum, scale, DecodeVarint(s, max))
         == Shift(sum + scale * (s[0] - 128), 128 * scale, DecodeVarint(s[1..], max - 1))
  {
    var more := DecodeVarint(s[1..], max - 1);
    if more.Varint? {
      assert scale * (s[0] - 128 + 128 * more.n) == scale * (s[0] - 128) + 128 * scale * more.n;
    }
  }

  lemma ShiftLast(sum: nat, scale: nat, s: bytes, max: nat)
    requires max > 0 && s != [] && s[0] < 128
    ensures Shift(sum, scale, DecodeVarint(s, max)) == Varint(sum + scale * s[0], s[1..])
  {
  }

  lemma ShiftOut(sum: nat, scale: nat, s: bytes, max: nat)
    requires max == 0 || s == []
    ensures Shift(sum, scale, DecodeVarint(s, max)) == NoVarint
  {
  }

  class CodedInputStream {
    const s: bytes
    var pos: nat
    var legitimateEnd: bool // ConsumedEntireMessage()

    ghost predicate Valid()
      reads this
    {
      pos <= |s|
    }

    function Rest(): bytes
      requires pos <= |s|
      reads this
    {
      s[pos..]
    }

    constructor (input: bytes)
      ensures Valid() && s == input && pos == 0 && Rest() == input && !legitimateEnd
    {
      s, pos, legitimateEnd := input, 0, false;
    }

    /** A varint of up to ten bytes, shifted together as in a 64-bit register. */
    method ReadVarint64() returns (ok: bool, n: nat)
      requires Valid()
      modifies this`pos
      ensures Valid() && ok == W.ReadVarint(old(Rest())).Varint?
      ensures ok ==> W.ReadVarint(old(Rest())) == Varint(n, Rest())
      ensures !ok ==> pos == old(pos)
    {
      hide DecodeVarint, Shift;
      ghost var whole := DecodeVarint(Rest(), 10);
      var i: nat, scale: nat, sum: nat := 0, 1, 0;
      ShiftNone(whole);
      while i < 10 && pos + i < |s|
        invariant i <= 10 && pos == old(pos) && pos + i <= |s|
        invariant whole == Shift(sum, scale, DecodeVarint(s[pos + i..], 10 - i))
      {
        var b := s[pos + i];
        ghost var here := s[pos + i..];
        assert here[1..] == s[pos + i + 1..];
        if b < 128 {
          ShiftLast(sum, scale, here, 10 - i);
          n := (sum + scale * b) % WORD64;
          pos := pos + i + 1;
          return true, n;
        }
        ShiftMore(sum, scale, here, 10 - i);
        sum, scale := sum + scale * (b - 128), 128 * scale;
        i := i + 1;
      }
      ShiftOut(sum, scale, s[pos + i..], 10 - i);
      return false, 0;
    }

    method ReadTag() returns (tag: nat)
      requires Valid()
      modifies this
      ensures Valid() && tag == W.ReadTag(old(Rest())).0
      ensures tag != 0 ==> Rest() == W.ReadTag(old(Rest())).1 && !legitimateEnd
      ensures tag == 0 ==> (legitimateEnd <==> old(Rest()) == [])
    {
      legitimateEnd := pos == |s|;
      if legitimateEnd {
        return 0;
      }
      var ok, n := ReadVarint64();
      return if ok then n % WORD32 else 0;
    }

    /** One byte that is the expected tag is consumed. */
    method ExpectTag(expected: byte) returns (found: bool)
      requires Valid() && 0 < expected < 128
      modifies this`pos
      ensures Valid() && pos >= old(pos)
      ensures found ==> old(Rest()) != [] && W.ReadTag(old(Rest())) == (expected, Rest())
      ensures !found ==> pos == old(pos)
    {
      if pos < |s| && s[pos] == expected {
        pos := pos + 1;
        return true;
      }
      return false;
    }

    method ExpectAtEnd() returns (end: bool)
      requires Valid()
      modifies this`legitimateEnd
      ensures end <==> Rest() == []
      ensures end ==> legitimateEnd
    {
      end := pos == |s|;
      if end {
        legitimateEnd := true;
      }
    }

    method ReadNumber() returns (ok: bool, n: nat)
      requires Valid()
      modifies this`pos
      ensures Valid() && pos >= old(pos) && ok == DecodePayload(0, old(Rest())).GotPayload?
      ensures ok ==> DecodePayload(0, old(Rest())) == GotPayload(Number(n), Rest())
    {
      ok, n := ReadVarint64();
    }

    /** ReadString and ReadBytes: a length that is positive as an int, and that many bytes. */
    method ReadChunk() returns (ok: bool, b: bytes)
      requires Valid()
      modifies this`pos
      ensures Valid() && pos >= old(pos) && ok == DecodePayload(2, old(Rest())).GotPayload?
      ensures ok ==> DecodePayload(2, old(Rest())) == GotPayload(Chunk(b), Rest())
    {
      var n;
      ok, n := ReadVarint64();
      if !ok {
        return false, [];
      }
      var length := n % WORD32;
      if length >= 0x8000_0000 || pos + length > |s| {
        return false, [];
      }
      b := s[pos..pos + length];
      assert Rest()[..length] == b && Rest()[length..] == s[pos + length..];
      pos := pos + length;
    }

    /** SkipField: the field goes to the unknown ones. */
    method SkipField(tag: nat) returns (ok: bool, f: Field)
      requires Valid()
      modifies this`pos
      ensures Valid() && pos >= old(pos)
      ensures ok <==> DecodePayload(tag % 8, old(Rest())).GotPayload?
      ensures ok ==> DecodePayload(tag % 8, old(Rest())) == GotPayload(f.payload, Rest()) && f.number == tag / 8
      ensures ok ==> FixedSizes(f)
    {
      f := Field(tag / 8, Number(0));
      var wireType := tag % 8;
      if wireType == 0 {
        var n;
        ok, n := ReadNumber();
        f := Field(tag / 8, Number(n));
      } else if wireType == 2 {
        var b;
        ok, b := ReadChunk();
        f := Field(tag / 8, Chunk(b));
      } else if wireType == 1 || wireType == 5 {
        var size := if wireType == 1 then 8 else 4;
        ok := pos + size <= |s|;
        if ok {
          var b := s[pos..pos + size];
          assert Rest()[..size] == b && Rest()[size..] == s[pos + size..];
          f := Field(tag / 8, if wireType == 1 then Eight(b) else Four(b));
          pos := pos + size;
        }
      } else {
        ok := false;
      }
    }
  }

  // ---------- Writing ----------

  /** The sequence with b written over it from a position on. */
  ghost function Overwritten(s: bytes, at: nat, b: bytes): (r: bytes)
    requires at + |b| <= |s|
    ensures |r| == |s|
  {
    s[..at] + b + s[at + |b|..]
  }

  lemma OverwrittenTwice(s: bytes, at: nat, a: bytes, b: bytes)
    requires at + |a| + |b| <= |s| && at + |a + b| <= |s|
    ensures Overwritten(Overwritten(s, at, a), at + |a|, b) == Overwritten(s, at, a + b)
  {
    var once := Overwritten(s, at, a);
    assert once[..at + |a|] == s[..at] + a;
    assert once[at + |a| + |b|..] == s[at + |a| + |b|..];
  }

  lemma OverwrittenByNothing(s: bytes, at: nat)
    requires at <= |s|
    ensures Overwritten(s, at, []) == s
  {
  }

  method CopyToArray(b: bytes, target: array<byte>, at: nat) returns (next: nat)
    requires at + |b| <= target.Length
    modifies target
    ensures next == at + |b| && target[..] == Overwritten(old(target[..]), at, b)
  {
    var i := 0;
    while i < |b|
      invariant 0 <= i <= |b|
      invariant forall k :: 0 <= k < target.Length ==>
                  target[k] == if at <= k < at + i then b[k - at] else old(target[k])
    {
      target[at + i] := b[i];
      i := i + 1;
    }
    return at + |b|;
  }

  method StoreByte(b: byte, target: array<byte>, at: nat) returns (next: nat)
    requires at < target.Length
    modifies target
    ensures next == at + 1 && target[..] == Overwritten(old(target[..]), at, [b])
  {
    target[at] := b;
    return at + 1;
  }

  lemma VarintByByte(n: nat)
    ensures n < 128 ==> EncodeVarint(n) == [n]
    ensures n >= 128 ==> EncodeVarint(n) == [128 + n % 128] + EncodeVarint(n / 128)
  {
  }

  /** WriteVarintToArray: seven bits a byte while more remain. */
  method WriteVarintToArray(n: nat, target: array<byte>, at: nat) returns (next: nat)
    requires at + |EncodeVarint(n)| <= target.Length
    modifies target
    ensures next == at + |EncodeVarint(n)| && target[..] == Overwritten(old(target[..]), at, EncodeVarint(n))
  {
    hide EncodeVarint, Overwritten;
    ghost var before := target[..];
    var v := n;
    next := at;
    ghost var done: bytes := [];
    OverwrittenByNothing(before, at);
    while v >= 128
      invariant next == at + |done| && done + EncodeVarint(v) == EncodeVarint(n)
      invariant at + |done| <= target.Length && target[..] == Overwritten(before, at, done)
      decreases v
    {
      VarintByByte(v);
      var b := 128 + v % 128;
      assert (done + [b]) + EncodeVarint(v / 128) == EncodeVarint(n);
      OverwrittenTwice(before, at, done, [b]);
      next := StoreByte(b, target, next);
      done := done + [b];
      v := v / 128;
    }
    VarintByByte(v);
    OverwrittenTwice(before, at, done, [v]);
    next := StoreByte(v, target, next);
  }

  method WritePayloadToArray(p: Payload, target: array<byte>, at: nat) returns (next: nat)
    requires at + |EncodePayload(p)| <= target.Length
    modifies target
    ensures next == at + |EncodePayload(p)| && target[..] == Overwritten(old(target[..]), at, EncodePayload(p))
  {
    hide EncodeVarint, Overwritten;
    match p {
      case Number(n) => next := WriteVarintToArray(n, target, at);
      case Eight(b) => next := CopyToArray(b, target, at);
      case Four(b) => next := CopyToArray(b, target, at);
      case Chunk(b) =>
        next := WriteVarintToArray(|b|, target, at);
        OverwrittenTwice(old(target[..]), at, EncodeVarint(|b|), b);
        next := CopyToArray(b, target, next);
    }
  }

  /** A tag and a payload, as by WriteUInt32ToArray, WriteBytesToArray and their like. */
  method WriteFieldToArray(f: Field, target: array<byte>, at: nat) returns (next: nat)
    requires at + |EncodeField(f)| <= target.Length
    modifies target
    ensures next == at + |EncodeField(f)| && target[..] == Overwritten(old(target[..]), at, EncodeField(f))
  {
    hide EncodeVarint, EncodePayload, Overwritten;
    var tag := 8 * f.number + WireType(f.payload);
    next := WriteVarintToArray(tag, target, at);
    OverwrittenTwice(old(target[..]), at, EncodeVarint(tag), EncodePayload(f.payload));
    next := WritePayloadToArray(f.payload, target, next);
  }

  lemma EncodeFieldsNext(fs: seq<Field>, i: nat)
    requires i < |fs|
    ensures EncodeFields(fs[..i + 1]) == EncodeFields(fs[..i]) + EncodeField(fs[i])
  {
    assert fs[..i + 1] == fs[..i] + [fs[i]];
    EncodeFieldsAppend(fs[..i], [fs[i]]);
    assert EncodeFields([fs[i]]) == EncodeField(fs[i]) by {
      assert [fs[i]][1..] == [];
    }
  }

  lemma EncodeFieldsPrefix(fs: seq<Field>, i: nat)
    requires i <= |fs|
    ensures |EncodeFields(fs[..i])| <= |EncodeFields(fs)|
  {
    assert fs == fs[..i] + fs[i..];
    EncodeFieldsAppend(fs[..i], fs[i..]);
  }

  /** SerializeUnknownFieldsToArray. */
  method WriteFieldsToArray(fs: seq<Field>, target: array<byte>, at: nat) returns (next: nat)
    requires at + |EncodeFields(fs)| <= target.Length
    modifies target
    ensures next == at + |EncodeFields(fs)| && target[..] == Overwritten(old(target[..]), at, EncodeFields(fs))
  {
    hide EncodeField, EncodeFields, Overwritten;
    ghost var before := target[..];
    next := at;
    var i := 0;
    assert EncodeFields(fs[..0]) == [] by {
      NoFields();
    }
    OverwrittenByNothing(before, at);
    while i < |fs|
      invariant 0 <= i <= |fs|
      invariant next == at + |EncodeFields(fs[..i])| <= target.Length
      invariant target[..] == Overwritten(before, at, EncodeFields(fs[..i]))
    {
      next := WriteNextToArray(fs, i, fs[i], target, before, at, next);
      i := i + 1;
    }
    assert fs[..i] == fs;
  }

  /** The fields of a message are written one after the other; this writes the next of them. */
  method WriteNextToArray(ghost all: seq<Field>, ghost i: nat, f: Field, target: array<byte>, ghost before: bytes,
                          ghost at: nat, next0: nat)
    returns (next: nat)
    requires i < |all| && all[i] == f && |before| == target.Length && at + |EncodeFields(all)| <= target.Length
    requires at + |EncodeFields(all[..i])| == next0 <= target.Length
    requires target[..] == Overwritten(before, at, EncodeFields(all[..i]))
    modifies target
    ensures at + |EncodeFields(all[..i + 1])| == next <= target.Length
    ensures target[..] == Overwritten(before, at, EncodeFields(all[..i + 1]))
  {
    hide EncodeField, EncodeFields, Overwritten;
    EncodeFieldsPrefix(all, i + 1);
    EncodeFieldsNext(all, i);
    OverwrittenTwice(before, at, EncodeFields(all[..i]), EncodeField(f));
    next := WriteFieldToArray(f, target, next0);
  }

  lemma NoFields()
    ensures EncodeFields([]) == []
  {
  }

  // ---------- The coded output stream ----------

  class CodedOutputStream {
    var written: bytes

    constructor ()
      ensures written == []
    {
      written := [];
    }

    method WriteVarint(n: nat)
      modifies this
      ensures written == old(written) + EncodeVarint(n)
    {
      hide EncodeVarint;
      var v := n;
      while v >= 128
        invariant written + EncodeVarint(v) == old(written) + EncodeVarint(n)
        decreases v
      {
        VarintByByte(v);
        assert written + EncodeVarint(v) == (written + [128 + v % 128]) + EncodeVarint(v / 128);
        written := written + [128 + v % 128];
        v := v / 128;
      }
      VarintByByte(v);
      written := written + [v];
    }

    method WriteField(f: Field)
      modifies this
      ensures written == old(written) + EncodeField(f)
    {
      hide EncodeVarint;
      WriteVarint(8 * f.number + WireType(f.payload));
      ghost var head := written;
      match f.payload {
        case Number(n) => WriteVarint(n);
        case Eight(b) => written := written + b;
        case Four(b) => written := written + b;
        case Chunk(b) =>
          WriteVarint(|b|);
          written := written + b;
      }
      assert written == head + EncodePayload(f.payload);
    }

    /** The fields of a message are written one after the other; this writes the next of them. */
    method WriteNext(ghost all: seq<Field>, ghost i: nat, f: Field, ghost before: bytes)
      requires i < |all| && all[i] == f && written == before + EncodeFields(all[..i])
      modifies this
      ensures written == before + EncodeFields(all[..i + 1])
    {
      hide EncodeField, EncodeFields;
      EncodeFieldsNext(all, i);
      WriteField(f);
    }

    /** SerializeUnknownFields. */
    method WriteFields(fs: seq<Field>)
      modifies this
      ensures written == old(written) + EncodeFields(fs)
    {
      hide EncodeField, EncodeFields;
      NoFields();
      for i := 0 to |fs|
        invariant written == old(written) + EncodeFields(fs[..i])
      {
        WriteNext(fs, i, fs[i], old(written));
      }
      assert fs[..|fs|] == fs;
    }
  }

  // ---------- Sizes ----------

  function PayloadSize(p: Payload): nat {
    match p
    case Number(n) => VarintSize(n)
    case Chunk(b) => VarintSize(|b|) + |b|
    case Eight(_) => 8
    case Four(_) => 4
  }

  function FieldSize(f: Field): nat {
    VarintSize(8 * f.number + WireType(f.payload)) + PayloadSize(f.payload)
  }

  lemma FieldSizeCorrect(f: Field)
    requires FixedSizes(f)
    ensures FieldSize(f) == |EncodeField(f)|
  {
    hide EncodeVarint, VarintSize;
    VarintSizeCorrect(8 * f.number + WireType(f.payload));
    match f.payload
    case Number(n) => VarintSizeCorrect(n);
    case Chunk(b) => VarintSizeCorrect(|b|);
    case Eight(_) =>
    case Four(_) =>
  }

  /** The number field, next of all, adds its size to that of the fields before; its tag takes one byte. */
  lemma NextNumberSize(all: seq<Field>, i: nat, number: nat, n: nat)
    requires i < |all| && all[i] == Field(number, Number(n)) && number < 16
    ensures |EncodeFields(all[..i])| + 1 + VarintSize(n) == |EncodeFields(all[..i + 1])|
  {
    hide EncodeVarint, EncodeFields;
    FieldSizeCorrect(all[i]);
    EncodeFieldsNext(all, i);
  }

  lemma NextChunkSize(all: seq<Field>, i: nat, number: nat, b: bytes)
    requires i < |all| && all[i] == Field(number, Chunk(b)) && number < 15
    ensures |EncodeFields(all[..i])| + 1 + VarintSize(|b|) + |b| == |EncodeFields(all[..i + 1])|
  {
    hide EncodeVarint, EncodeFields;
    FieldSizeCorrect(all[i]);
    EncodeFieldsNext(all, i);
  }

  /** ComputeUnknownFieldsSize. */
  method FieldsSize(fs: seq<Field>) returns (size: nat)
    requires forall k :: 0 <= k < |fs| ==> FixedSizes(fs[k])
    ensures size == |EncodeFields(fs)|
  {
    hide EncodeField, EncodeFields, FieldSize, FixedSizes;
    size := 0;
    NoFields();
    for i := 0 to |fs|
      invariant size == |EncodeFields(fs[..i])|
    {
      EncodeFieldsNext(fs, i);
      FieldSizeCorrect(fs[i]);
      size := size + FieldSize(fs[i]);
    }
    assert fs[..|fs|] == fs;
  }
}
