/**
  The generated code of BusHead: the tag loop with its goto fast path, both serializers, ByteSize and
  MergeFrom, against the plain tag loop and the field list of PbMessages.
 */
module PbBusHead {
  import opened Bytes
  import opened Concat
  import opened PbWire
  import opened PbStream
  import M = PbMessages

  class BusHead {
    var requestid: nat
    var servicename: bytes
    var data: bytes
    var endflag: nat
    var hasBits: set<nat> // the field numbers whose has-bit is set
    var unknown: seq<Field>
    var cachedSize: nat

    ghost predicate Valid()
      reads this
    {
      && hasBits <= {1, 2, 3, 4}
      && forall k :: 0 <= k < |unknown| ==> FixedSizes(unknown[k])
    }

    /** The message as a value. */
    ghost function View(): M.BusHead
      reads this
    {
      M.BusHead(if 1 in hasBits then Some(requestid) else None, if 2 in hasBits then Some(servicename) else None,
                if 3 in hasBits then Some(data) else None, if 4 in hasBits then Some(endflag) else None, unknown)
    }

    constructor ()
      ensures Valid() && View() == M.EMPTY_HEAD
    {
      requestid, servicename, data, endflag, hasBits, unknown, cachedSize := 0, [], [], 0, {}, [], 0;
    }

    // ---------- Parsing ----------

    /** The fast path accepts and yields what a plain tag loop does. */
    method MergePartialFromCodedStream(input: CodedInputStream) returns (ok: bool)
      requires Valid() && input.Valid()
      modifies this, input
      ensures Valid() && input.Valid()
      ensures ok <==> Loop(old(input.Rest()), old(View()), M.ApplyHead).Ended?
      ensures ok ==> var r := Loop(old(input.Rest()), old(View()), M.ApplyHead);
                     View() == r.m && (input.legitimateEnd <==> r.rest == [])
    {
      hide Loop, W.ReadTag, AfterTag, M.ApplyHead;
      var tag: nat := 0;
      ghost var r := Loop(input.Rest(), View(), M.ApplyHead);
      while true
        invariant Valid() && input.Valid()
        invariant r == Loop(input.Rest(), View(), M.ApplyHead)
        decreases |input.Rest()|
      {
        LoopReadsTag(input.Rest(), View(), M.ApplyHead);
        tag := input.ReadTag();
        if tag == 0 {
          return true;
        }
        var flow := SwitchOnTag(tag, input);
        match flow {
          case Break =>
          case ReturnTrue => return true;
          case ReturnFalse => return false;
        }
      }
    }

    method SwitchOnTag(tag: nat, input: CodedInputStream) returns (flow: Flow)
      requires Valid() && input.Valid() && tag != 0 && !input.legitimateEnd
      modifies this, input
      ensures Valid() && input.Valid() && input.pos >= old(input.pos)
      ensures tag % 8 != END_GROUP ==>
                Leaves(flow, AfterTag(tag, old(input.Rest()), old(View()), M.ApplyHead), View(), input.Rest(),
                       input.legitimateEnd, M.ApplyHead)
      ensures tag % 8 == END_GROUP ==>
                flow == ReturnTrue && View() == old(View()) && !input.legitimateEnd
    {
      hide AfterTag, Leaves, M.ApplyHead;
      if tag / 8 == 1 && tag % 8 == 0 {
        flow := CaseRequestId(input);
      } else if tag / 8 == 2 && tag % 8 == 2 {
        flow := ParseServiceName(input);
      } else if tag / 8 == 3 && tag % 8 == 2 {
        flow := ParseData(input);
      } else if tag / 8 == 4 && tag % 8 == 0 {
        flow := ParseEndFlag(input);
      } else {
        flow := HandleUninterpreted(tag, input);
      }
    }

    method CaseRequestId(input: CodedInputStream) returns (flow: Flow)
      requires Valid() && input.Valid() && !input.legitimateEnd
      modifies this, input
      ensures Valid() && input.Valid() && input.pos >= old(input.pos)
      ensures Leaves(flow, AfterTag(8, old(input.Rest()), old(View()), M.ApplyHead), View(), input.Rest(),
                     input.legitimateEnd, M.ApplyHead)
    {
      hide Loop, DecodePayload, W.ReadTag;
      var ok, n := input.ReadNumber();
      if !ok {
        return ReturnFalse;
      }
      requestid := n;
      hasBits := hasBits + {1};
      AfterField(8, old(input.Rest()), old(View()), M.ApplyHead, Number(n), input.Rest(), View());
      LoopReadsTag(input.Rest(), View(), M.ApplyHead);
      var more := input.ExpectTag(18);
      if more {
        flow := ParseServiceName(input);
      } else {
        flow := Break;
      }
    }

    method ParseServiceName(input: CodedInputStream) returns (flow: Flow)
      requires Valid() && input.Valid() && !input.legitimateEnd
      modifies this, input
      ensures Valid() && input.Valid() && input.pos >= old(input.pos)
      ensures Leaves(flow, AfterTag(18, old(input.Rest()), old(View()), M.ApplyHead), View(), input.Rest(),
                     input.legitimateEnd, M.ApplyHead)
    {
      hide Loop, DecodePayload, W.ReadTag;
      var ok, b := input.ReadChunk();
      hasBits := hasBits + {2};
      if !ok {
        return ReturnFalse;
      }
      servicename := b;
      AfterField(18, old(input.Rest()), old(View()), M.ApplyHead, Chunk(b), input.Rest(), View());
      LoopReadsTag(input.Rest(), View(), M.ApplyHead);
      var more := input.ExpectTag(26);
      if more {
        flow := ParseData(input);
      } else {
        flow := Break;
      }
    }

    method ParseData(input: CodedInputStream) returns (flow: Flow)
      requires Valid() && input.Valid() && !input.legitimateEnd
      modifies this, input
      ensures Valid() && input.Valid() && input.pos >= old(input.pos)
      ensures Leaves(flow, AfterTag(26, old(input.Rest()), old(View()), M.ApplyHead), View(), input.Rest(),
                     input.legitimateEnd, M.ApplyHead)
    {
      hide Loop, DecodePayload, W.ReadTag;
      var ok, b := input.ReadChunk();
      hasBits := hasBits + {3};
      if !ok {
        return ReturnFalse;
      }
      data := b;
      AfterField(26, old(input.Rest()), old(View()), M.ApplyHead, Chunk(b), input.Rest(), View());
      LoopReadsTag(input.Rest(), View(), M.ApplyHead);
      var more := input.ExpectTag(32);
      if more {
        flow := ParseEndFlag(input);
      } else {
        flow := Break;
      }
    }

    method ParseEndFlag(input: CodedInputStream) returns (flow: Flow)
      requires Valid() && input.Valid() && !input.legitimateEnd
      modifies this, input
      ensures Valid() && input.Valid() && input.pos >= old(input.pos)
      ensures Leaves(flow, AfterTag(32, old(input.Rest()), old(View()), M.ApplyHead), View(), input.Rest(),
                     input.legitimateEnd, M.ApplyHead)
    {
      hide Loop, DecodePayload, W.ReadTag;
      var ok, n := input.ReadNumber();
      if !ok {
        return ReturnFalse;
      }
      endflag := n % WORD32;
      hasBits := hasBits + {4};
      AfterField(32, old(input.Rest()), old(View()), M.ApplyHead, Number(n), input.Rest(), View());
      LoopAtEnd(View(), M.ApplyHead);
      var end := input.ExpectAtEnd();
      return if end then ReturnTrue else Break;
    }

    method HandleUninterpreted(tag: nat, input: CodedInputStream) returns (flow: Flow)
      requires Valid() && input.Valid() && tag !in {0, 8, 18, 26, 32} && !input.legitimateEnd
      modifies this, input
      ensures Valid() && input.Valid() && input.pos >= old(input.pos)
      ensures tag % 8 != END_GROUP ==>
                Leaves(flow, AfterTag(tag, old(input.Rest()), old(View()), M.ApplyHead), View(), input.Rest(),
                       input.legitimateEnd, M.ApplyHead)
      ensures tag % 8 == END_GROUP ==>
                flow == ReturnTrue && View() == old(View()) && !input.legitimateEnd
    {
      hide Loop, DecodePayload;
      if tag % 8 == END_GROUP {
        return ReturnTrue;
      }
      var ok, f := input.SkipField(tag);
      if !ok {
        return ReturnFalse;
      }
      unknown := unknown + [f];
      AfterField(tag, old(input.Rest()), old(View()), M.ApplyHead, f.payload, input.Rest(), View());
      return Break;
    }

    // ---------- Serializing ----------

    /** The known fields and then the unknown ones are appended to the output. */
    method SerializeWithCachedSizes(output: CodedOutputStream)
      modifies output
      ensures output.written == old(output.written) + EncodeFields(M.HeadFields(View()))
    {
      hide EncodeFields, EncodeField;
      ghost var before, all, i := output.written, M.KnownHeadFields(View()), 0;
      NoFields();
      assert before + [] == before;
      if 1 in hasBits {
        output.WriteNext(all, i, Field(1, Number(requestid)), before);
        i := i + 1;
      }
      if 2 in hasBits {
        output.WriteNext(all, i, Field(2, Chunk(servicename)), before);
        i := i + 1;
      }
      if 3 in hasBits {
        output.WriteNext(all, i, Field(3, Chunk(data)), before);
        i := i + 1;
      }
      if 4 in hasBits {
        output.WriteNext(all, i, Field(4, Number(endflag)), before);
        i := i + 1;
      }
      assert all[..i] == all;
      EncodeFieldsAppend(all, unknown);
      Regroup(before, EncodeFields(all), EncodeFields(unknown));
      output.WriteFields(unknown);
    }

    /** The same bytes, written over the array from a position on; nothing else in it changes. */
    method SerializeWithCachedSizesToArray(target: array<byte>, at: nat) returns (next: nat)
      requires at + |EncodeFields(M.HeadFields(View()))| <= target.Length
      modifies target
      ensures next == at + |EncodeFields(M.HeadFields(View()))|
      ensures target[..] == Overwritten(old(target[..]), at, EncodeFields(M.HeadFields(View())))
    {
      hide EncodeFields, EncodeField, Overwritten;
      ghost var before, all, i := target[..], M.KnownHeadFields(View()), 0;
      M.KnownHeadAt(View());
      hide M.KnownHeadFields;
      next := at;
      EncodeFieldsAppend(all, unknown);
      NoFields();
      OverwrittenByNothing(before, at);
      if 1 in hasBits {
        next := WriteNextToArray(all, i, Field(1, Number(requestid)), target, before, at, next);
        i := i + 1;
      }
      if 2 in hasBits {
        next := WriteNextToArray(all, i, Field(2, Chunk(servicename)), target, before, at, next);
        i := i + 1;
      }
      if 3 in hasBits {
        next := WriteNextToArray(all, i, Field(3, Chunk(data)), target, before, at, next);
        i := i + 1;
      }
      if 4 in hasBits {
        next := WriteNextToArray(all, i, Field(4, Number(endflag)), target, before, at, next);
        i := i + 1;
      }
      assert all[..i] == all;
      OverwrittenTwice(before, at, EncodeFields(all), EncodeFields(unknown));
      next := WriteFieldsToArray(unknown, target, next);
    }

    /** The size of the known fields. */
    method KnownSize() returns (size: nat)
      requires Valid()
      ensures size == |EncodeFields(M.KnownHeadFields(View()))|
    {
      hide EncodeFields, EncodeField, VarintSize;
      ghost var all, i := M.KnownHeadFields(View()), 0;
      M.KnownHeadAt(View());
      hide M.KnownHeadFields;
      NoFields();
      size := 0;
      if hasBits != {} {
        if 1 in hasBits {
          NextNumberSize(all, i, 1, requestid);
          size := size + 1 + VarintSize(requestid);
          i := i + 1;
        }
        if 2 in hasBits {
          NextChunkSize(all, i, 2, servicename);
          size := size + 1 + VarintSize(|servicename|) + |servicename|;
          i := i + 1;
        }
        if 3 in hasBits {
          NextChunkSize(all, i, 3, data);
          size := size + 1 + VarintSize(|data|) + |data|;
          i := i + 1;
        }
        if 4 in hasBits {
          NextNumberSize(all, i, 4, endflag);
          size := size + 1 + VarintSize(endflag);
          i := i + 1;
        }
      }
      assert all[..i] == all;
    }

    /** The length of what the serializers write; it is also stored. */
    method ByteSize() returns (totalSize: nat)
      requires Valid()
      modifies this`cachedSize
      ensures totalSize == cachedSize == |EncodeFields(M.HeadFields(View()))|
    {
      hide EncodeFields, M.KnownHeadFields;
      totalSize := KnownSize();
      EncodeFieldsAppend(M.KnownHeadFields(View()), unknown);
      var unknownSize := FieldsSize(unknown);
      totalSize := totalSize + unknownSize;
      cachedSize := totalSize;
    }

    // ---------- Merging ----------

    /** The fields that are set in the other message, and their has-bits. */
    method MergeKnown(from: BusHead)
      requires from != this && Valid() && from.Valid()
      modifies this
      ensures hasBits == old(hasBits) + from.hasBits && unknown == old(unknown)
      ensures requestid == if 1 in from.hasBits then from.requestid else old(requestid)
      ensures servicename == if 2 in from.hasBits then from.servicename else old(servicename)
      ensures data == if 3 in from.hasBits then from.data else old(data)
      ensures endflag == if 4 in from.hasBits then from.endflag else old(endflag)
    {
      if from.hasBits != {} {
        if 1 in from.hasBits {
          requestid, hasBits := from.requestid, hasBits + {1};
        }
        if 2 in from.hasBits {
          servicename, hasBits := from.servicename, hasBits + {2};
        }
        if 3 in from.hasBits {
          data, hasBits := from.data, hasBits + {3};
        }
        if 4 in from.hasBits {
          endflag, hasBits := from.endflag, hasBits + {4};
        }
      }
    }

    method MergeFrom(from: BusHead)
      requires from != this && Valid() && from.Valid()
      modifies this
      ensures Valid() && View() == M.MergeHead(old(View()), from.View())
    {
      MergeKnown(from);
      unknown := unknown + from.unknown;
    }
  }
}
