/** The generated code of LoginReq: a repeated number that arrives tagged one by one or packed. */
module PbLoginReq {
  import opened Bytes
  import opened Concat
  import opened PbWire
  import opened PbStream
  import M = PbMessages

  /** The run b is read up to rest, and done are its values so far. */
  ghost predicate Packs(b: bytes, done: seq<nat>, rest: bytes) {
    match M.PackedValues(rest)
    case None => M.PackedValues(b).None?
    case Some(ns) => M.PackedValues(b) == Some(done + ns)
  }

  lemma PacksAt(b: bytes)
    ensures Packs(b, [], b)
  {
    hide M.PackedValues;
    assert M.PackedValues(b).Some? ==> [] + M.PackedValues(b).value == M.PackedValues(b).value;
  }

  lemma PacksOne(b: bytes, done: seq<nat>, rest: bytes, n: nat, after: bytes)
    requires rest != [] && Packs(b, done, rest) && ReadVarint(rest) == Varint(n, after)
    ensures Packs(b, done + [n % WORD32], after)
  {
    hide ReadVarint;
    var ns := M.PackedValues(after);
    assert ns.Some? ==> done + ([n % WORD32] + ns.value) == (done + [n % WORD32]) + ns.value;
  }

  lemma PacksNot(b: bytes, done: seq<nat>, rest: bytes)
    requires rest != [] && Packs(b, done, rest) && ReadVarint(rest).NoVarint?
    ensures M.PackedValues(b).None?
  {
  }

  lemma PacksAll(b: bytes, done: seq<nat>)
    requires Packs(b, done, [])
    ensures M.PackedValues(b) == Some(done)
  {
    assert done + [] == done;
  }

  class LoginReq {
    var serviceno: seq<nat>
    var unknown: seq<Field>
    var cachedSize: nat

    ghost predicate Valid()
      reads this
    {
      forall k :: 0 <= k < |unknown| ==> FixedSizes(unknown[k])
    }

    ghost function View(): M.LoginReq
      reads this
    {
      M.LoginReq(serviceno, unknown)
    }

    constructor ()
      ensures Valid() && View() == M.EMPTY_REQ
    {
      serviceno, unknown, cachedSize := [], [], 0;
    }

    // ---------- Parsing ----------

    method MergePartialFromCodedStream(input: CodedInputStream) returns (ok: bool)
      requires Valid() && input.Valid()
      modifies this, input
      ensures Valid() && input.Valid()
      ensures ok <==> Loop(old(input.Rest()), old(View()), M.ApplyReq).Ended?
      ensures ok ==> var r := Loop(old(input.Rest()), old(View()), M.ApplyReq);
                     View() == r.m && (input.legitimateEnd <==> r.rest == [])
    {
      hide Loop, W.ReadTag, AfterTag, M.ApplyReq;
      ghost var r := Loop(input.Rest(), View(), M.ApplyReq);
      while true
        invariant Valid() && input.Valid()
        invariant r == Loop(input.Rest(), View(), M.ApplyReq)
        decreases |input.Rest()|
      {
        LoopReadsTag(input.Rest(), View(), M.ApplyReq);
        var tag := input.ReadTag();
        if tag == 0 {
          return true;
        }
        var flow;
        if tag / 8 == 1 && tag % 8 in {0, 2} {
          flow := CaseServiceNo(tag, input);
        } else {
          flow := HandleUninterpreted(tag, input);
        }
        match flow {
          case Break =>
          case ReturnTrue => return true;
          case ReturnFalse => return false;
        }
      }
    }

    /** One number or a packed run, and then every number that follows under the tag 8. */
    method CaseServiceNo(tag: nat, input: CodedInputStream) returns (flow: Flow)
      requires Valid() && input.Valid() && tag in {8, 10} && !input.legitimateEnd
      modifies this, input
      ensures Valid() && input.Valid() && input.pos >= old(input.pos)
      ensures Leaves(flow, AfterTag(tag, old(input.Rest()), old(View()), M.ApplyReq), View(), input.Rest(),
                     input.legitimateEnd, M.ApplyReq)
    {
      hide Loop, AfterTag, W.ReadTag, M.ApplyReq;
      ghost var r := AfterTag(tag, input.Rest(), View(), M.ApplyReq);
      var ok;
      if tag == 8 {
        ok := ParseServiceNo(input);
      } else {
        ok := ReadPacked(input);
      }
      if !ok {
        return ReturnFalse;
      }
      LoopReadsTag(input.Rest(), View(), M.ApplyReq);
      var more := input.ExpectTag(8);
      while more
        invariant Valid() && input.Valid() && input.pos >= old(input.pos) && !input.legitimateEnd
        invariant r == if more then AfterTag(8, input.Rest(), View(), M.ApplyReq)
                       else Loop(input.Rest(), View(), M.ApplyReq)
        decreases |input.Rest()|, more
      {
        ok := ParseServiceNo(input);
        if !ok {
          return ReturnFalse;
        }
        LoopReadsTag(input.Rest(), View(), M.ApplyReq);
        more := input.ExpectTag(8);
      }
      LoopAtEnd(View(), M.ApplyReq);
      var end := input.ExpectAtEnd();
      return if end then ReturnTrue else Break;
    }

    method ParseServiceNo(input: CodedInputStream) returns (ok: bool)
      requires Valid() && input.Valid()
      modifies this`serviceno, input`pos
      ensures input.Valid() && input.pos >= old(input.pos)
      ensures AfterTag(8, old(input.Rest()), old(View()), M.ApplyReq)
           == if ok then Loop(input.Rest(), View(), M.ApplyReq) else Failed
    {
      hide Loop, DecodePayload;
      var n;
      ok, n := input.ReadNumber();
      if ok {
        serviceno := serviceno + [n % WORD32];
        AfterField(8, old(input.Rest()), old(View()), M.ApplyReq, Number(n), input.Rest(), View());
      }
    }

    method ReadPacked(input: CodedInputStream) returns (ok: bool)
      requires Valid() && input.Valid()
      modifies this`serviceno, input`pos
      ensures input.Valid() && input.pos >= old(input.pos)
      ensures AfterTag(10, old(input.Rest()), old(View()), M.ApplyReq)
           == if ok then Loop(input.Rest(), View(), M.ApplyReq) else Failed
    {
      hide Loop, DecodePayload, M.PackedValues;
      var b;
      ok, b := input.ReadChunk();
      if ok {
        ok := AddValues(b);
        if ok {
          AfterField(10, old(input.Rest()), old(View()), M.ApplyReq, Chunk(b), input.Rest(), View());
        } else {
          AfterBadField(10, old(input.Rest()), old(View()), M.ApplyReq, Chunk(b), input.Rest());
        }
      }
    }

    /** Varints up to the limit set by the length. */
    method AddValues(b: bytes) returns (ok: bool)
      modifies this`serviceno
      ensures ok <==> M.PackedValues(b).Some?
      ensures ok ==> serviceno == old(serviceno) + M.PackedValues(b).value
    {
      var within := new CodedInputStream(b);
      ghost var done: seq<nat> := [];
      PacksAt(b);
      hide ReadVarint, M.PackedValues, Packs;
      while within.pos < |b|
        invariant within.Valid() && within.s == b && fresh(within)
        invariant serviceno == old(serviceno) + done
        invariant Packs(b, done, within.Rest())
        decreases |b| - within.pos
      {
        var n;
        ghost var rest := within.Rest();
        ok, n := within.ReadVarint64();
        if !ok {
          PacksNot(b, done, rest);
          return false;
        }
        PacksOne(b, done, rest, n, within.Rest());
        assert old(serviceno) + (done + [n % WORD32]) == serviceno + [n % WORD32];
        done := done + [n % WORD32];
        serviceno := serviceno + [n % WORD32];
      }
      assert within.Rest() == [];
      PacksAll(b, done);
      return true;
    }

    method HandleUninterpreted(tag: nat, input: CodedInputStream) returns (flow: Flow)
      requires Valid() && input.Valid() && tag !in {0, 8, 10} && !input.legitimateEnd
      modifies this, input
      ensures Valid() && input.Valid() && input.pos >= old(input.pos)
      ensures tag % 8 != END_GROUP ==>
                Leaves(flow, AfterTag(tag, old(input.Rest()), old(View()), M.ApplyReq), View(), input.Rest(),
                       input.legitimateEnd, M.ApplyReq)
      ensures tag % 8 == END_GROUP ==>
                flow == ReturnTrue && View() == old(View()) && !input.legitimateEnd
    {
      hide Loop, DecodePayload, M.PackedValues;
      if tag % 8 == END_GROUP {
        return ReturnTrue;
      }
      var ok, f := input.SkipField(tag);
      if !ok {
        return ReturnFalse;
      }
      unknown := unknown + [f];
      AfterField(tag, old(input.Rest()), old(View()), M.ApplyReq, f.payload, input.Rest(), View());
      return Break;
    }

    // ---------- Serializing ----------

    method SerializeWithCachedSizes(output: CodedOutputStream)
      modifies output
      ensures output.written == old(output.written) + EncodeFields(M.ReqFields(View()))
    {
      hide EncodeFields, EncodeField;
      ghost var before, all := output.written, M.Numbers(serviceno);
      NoFields();
      assert before + [] == before;
      for i := 0 to |serviceno|
        invariant output.written == before + EncodeFields(all[..i])
      {
        output.WriteNext(all, i, Field(1, Number(serviceno[i])), before);
      }
      assert all[..|serviceno|] == all;
      EncodeFieldsAppend(all, unknown);
      Regroup(before, EncodeFields(all), EncodeFields(unknown));
      output.WriteFields(unknown);
    }

    method SerializeWithCachedSizesToArray(target: array<byte>, at: nat) returns (next: nat)
      requires at + |EncodeFields(M.ReqFields(View()))| <= target.Length
      modifies target
      ensures next == at + |EncodeFields(M.ReqFields(View()))|
      ensures target[..] == Overwritten(old(target[..]), at, EncodeFields(M.ReqFields(View())))
    {
      hide EncodeFields, EncodeField, Overwritten;
      ghost var before, all := target[..], M.Numbers(serviceno);
      next := at;
      EncodeFieldsAppend(all, unknown);
      NoFields();
      OverwrittenByNothing(before, at);
      for i := 0 to |serviceno|
        invariant at + |EncodeFields(all[..i])| == next <= target.Length
        invariant target[..] == Overwritten(before, at, EncodeFields(all[..i]))
      {
        next := WriteNextToArray(all, i, Field(1, Number(serviceno[i])), target, before, at, next);
      }
      assert all[..|serviceno|] == all;
      OverwrittenTwice(before, at, EncodeFields(all), EncodeFields(unknown));
      next := WriteFieldsToArray(unknown, target, next);
    }

    /** One byte of tag for each number and the bytes of the numbers, counted apart. */
    method ByteSize() returns (totalSize: nat)
      requires Valid()
      modifies this`cachedSize
      ensures totalSize == cachedSize == |EncodeFields(M.ReqFields(View()))|
    {
      hide EncodeFields, EncodeField, VarintSize;
      ghost var all := M.Numbers(serviceno);
      NoFields();
      var dataSize := 0;
      for i := 0 to |serviceno|
        invariant i + dataSize == |EncodeFields(all[..i])|
      {
        NextNumberSize(all, i, 1, serviceno[i]);
        dataSize := dataSize + VarintSize(serviceno[i]);
      }
      totalSize := |serviceno| + dataSize;
      assert all[..|serviceno|] == all;
      EncodeFieldsAppend(all, unknown);
      var unknownSize := FieldsSize(unknown);
      totalSize := totalSize + unknownSize;
      cachedSize := totalSize;
    }

    method MergeFrom(from: LoginReq)
      requires from != this && Valid() && from.Valid()
      modifies this
      ensures Valid() && View() == M.MergeReq(old(View()), from.View())
    {
      serviceno := serviceno + from.serviceno;
      unknown := unknown + from.unknown;
    }
  }
}
