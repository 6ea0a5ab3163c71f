/** The generated code of RspInfo and of LoginRsp, which holds a pointer to an embedded RspInfo. */
module PbLoginRsp {
  import opened Bytes
  import opened Concat
  import opened PbWire
  import opened PbStream
  import M = PbMessages

  class RspInfo {
    var rspno: nat
    var rspdesc: bytes
    var hasBits: set<nat> // the field numbers whose has-bit is set
    var unknown: seq<Field>
    var cachedSize: nat

    ghost predicate Valid()
      reads this
    {
      && hasBits <= {1, 2}
      && forall k :: 0 <= k < |unknown| ==> FixedSizes(unknown[k])
    }

    ghost function View(): M.RspInfo
      reads this
    {
      M.RspInfo(if 1 in hasBits then Some(rspno) else None, if 2 in hasBits then Some(rspdesc) else None, unknown)
    }

    constructor ()
      ensures Valid() && View() == M.EMPTY_INFO
    {
      rspno, rspdesc, hasBits, unknown, cachedSize := 0, [], {}, [], 0;
    }

    method Clear()
      modifies this
      ensures Valid() && View() == M.EMPTY_INFO
    {
      if hasBits != {} {
        rspno := 0;
        if 2 in hasBits {
          rspdesc := [];
        }
      }
      hasBits, unknown := {}, [];
    }

    // ---------- Parsing ----------

    method MergePartialFromCodedStream(input: CodedInputStream) returns (ok: bool)
      requires Valid() && input.Valid()
      modifies this, input
      ensures Valid() && input.Valid()
      ensures ok <==> Loop(old(input.Rest()), old(View()), M.ApplyInfo).Ended?
      ensures ok ==> var r := Loop(old(input.Rest()), old(View()), M.ApplyInfo);
                     View() == r.m && (input.legitimateEnd <==> r.rest == [])
    {
      hide Loop, W.ReadTag, AfterTag, M.ApplyInfo;
      ghost var r := Loop(input.Rest(), View(), M.ApplyInfo);
      while true
        invariant Valid() && input.Valid()
        invariant r == Loop(input.Rest(), View(), M.ApplyInfo)
        decreases |input.Rest()|
      {
        LoopReadsTag(input.Rest(), View(), M.ApplyInfo);
        var tag := input.ReadTag();
        if tag == 0 {
          return true;
        }
        var flow;
        if tag / 8 == 1 && tag % 8 == 0 {
          flow := CaseRspNo(input);
        } else if tag / 8 == 2 && tag % 8 == 2 {
          flow := ParseRspDesc(input);
        } else {
          flow := HandleUninterpreted(tag, input);
        }
        match flow {
          case Break =>
          case ReturnTrue => return true;
          case ReturnFalse => return false;
        }
      }
    }

    method CaseRspNo(input: CodedInputStream) returns (flow: Flow)
      requires Valid() && input.Valid() && !input.legitimateEnd
      modifies this, input
      ensures Valid() && input.Valid() && input.pos >= old(input.pos)
      ensures Leaves(flow, AfterTag(8, old(input.Rest()), old(View()), M.ApplyInfo), View(), input.Rest(),
                     input.legitimateEnd, M.ApplyInfo)
    {
      hide Loop, DecodePayload, W.ReadTag;
      var ok, n := input.ReadNumber();
      if !ok {
        return ReturnFalse;
      }
      rspno := n % WORD32;
      hasBits := hasBits + {1};
      AfterField(8, old(input.Rest()), old(View()), M.ApplyInfo, Number(n), input.Rest(), View());
      LoopReadsTag(input.Rest(), View(), M.ApplyInfo);
      var more := input.ExpectTag(18);
      if more {
        flow := ParseRspDesc(input);
      } else {
        flow := Break;
      }
    }

    method ParseRspDesc(input: CodedInputStream) returns (flow: Flow)
      requires Valid() && input.Valid() && !input.legitimateEnd
      modifies this, input
      ensures Valid() && input.Valid() && input.pos >= old(input.pos)
      ensures Leaves(flow, AfterTag(18, old(input.Rest()), old(View()), M.ApplyInfo), View(), input.Rest(),
                     input.legitimateEnd, M.ApplyInfo)
    {
      hide Loop, DecodePayload, W.ReadTag;
      var ok, b := input.ReadChunk();
      hasBits := hasBits + {2};
      if !ok {
        return ReturnFalse;
      }
      rspdesc := b;
      AfterField(18, old(input.Rest()), old(View()), M.ApplyInfo, Chunk(b), input.Rest(), View());
      LoopAtEnd(View(), M.ApplyInfo);
      var end := input.ExpectAtEnd();
      return if end then ReturnTrue else Break;
    }

    method HandleUninterpreted(tag: nat, input: CodedInputStream) returns (flow: Flow)
      requires Valid() && input.Valid() && tag !in {0, 8, 18} && !input.legitimateEnd
      modifies this, input
      ensures Valid() && input.Valid() && input.pos >= old(input.pos)
      ensures tag % 8 != END_GROUP ==>
                Leaves(flow, AfterTag(tag, old(input.Rest()), old(View()), M.ApplyInfo), View(), input.Rest(),
                       input.legitimateEnd, M.ApplyInfo)
      ensures tag % 8 == END_GROUP ==>
                flow == ReturnTrue && View() == old(View()) && !input.legitimateEnd
    {
      hide Loop, DecodePayload;
      if tag % 8 == END_GROUP {
        return ReturnTrue;
      }
      var ok, f := input.SkipField(tag);
      if !ok {
        return ReturnFalse;
      }
      unknown := unknown + [f];
      AfterField(tag, old(input.Rest()), old(View()), M.ApplyInfo, f.payload, input.Rest(), View());
      return Break;
    }

    // ---------- Serializing ----------

    method SerializeWithCachedSizes(output: CodedOutputStream)
      modifies output
      ensures output.written == old(output.written) + EncodeFields(M.InfoFields(View()))
    {
      hide EncodeFields, EncodeField;
      ghost var before, all, i := output.written, M.KnownInfoFields(View()), 0;
      NoFields();
      assert before + [] == before;
      if 1 in hasBits {
        output.WriteNext(all, i, Field(1, Number(rspno)), before);
        i := i + 1;
      }
      if 2 in hasBits {
        output.WriteNext(all, i, Field(2, Chunk(rspdesc)), before);
        i := i + 1;
      }
      assert all[..i] == all;
      EncodeFieldsAppend(all, unknown);
      Regroup(before, EncodeFields(all), EncodeFields(unknown));
      output.WriteFields(unknown);
    }

    method SerializeWithCachedSizesToArray(target: array<byte>, at: nat) returns (next: nat)
      requires at + |EncodeFields(M.InfoFields(View()))| <= target.Length
      modifies target
      ensures next == at + |EncodeFields(M.InfoFields(View()))|
      ensures target[..] == Overwritten(old(target[..]), at, EncodeFields(M.InfoFields(View())))
    {
      hide EncodeFields, EncodeField, Overwritten;
      ghost var before, all, i := target[..], M.KnownInfoFields(View()), 0;
      next := at;
      EncodeFieldsAppend(all, unknown);
      NoFields();
      OverwrittenByNothing(before, at);
      if 1 in hasBits {
        next := WriteNextToArray(all, i, Field(1, Number(rspno)), target, before, at, next);
        i := i + 1;
      }
      if 2 in hasBits {
        next := WriteNextToArray(all, i, Field(2, Chunk(rspdesc)), target, before, at, next);
        i := i + 1;
      }
      assert all[..i] == all;
      OverwrittenTwice(before, at, EncodeFields(all), EncodeFields(unknown));
      next := WriteFieldsToArray(unknown, target, next);
    }

    method ByteSize() returns (totalSize: nat)
      requires Valid()
      modifies this`cachedSize
      ensures totalSize == cachedSize == |EncodeFields(M.InfoFields(View()))|
    {
      hide EncodeFields, EncodeField, VarintSize;
      totalSize := 0;
      ghost var all, i := M.KnownInfoFields(View()), 0;
      NoFields();
      if hasBits != {} {
        if 1 in hasBits {
          NextNumberSize(all, i, 1, rspno);
          totalSize := totalSize + 1 + VarintSize(rspno);
          i := i + 1;
        }
        if 2 in hasBits {
          NextChunkSize(all, i, 2, rspdesc);
          totalSize := totalSize + 1 + VarintSize(|rspdesc|) + |rspdesc|;
          i := i + 1;
        }
      }
      assert all[..i] == all;
      EncodeFieldsAppend(all, unknown);
      var unknownSize := FieldsSize(unknown);
      totalSize := totalSize + unknownSize;
      cachedSize := totalSize;
    }

    method MergeFrom(from: RspInfo)
      requires from != this && Valid() && from.Valid()
      modifies this
      ensures Valid() && View() == M.MergeInfo(old(View()), from.View())
    {
      if from.hasBits != {} {
        if 1 in from.hasBits {
          rspno, hasBits := from.rspno, hasBits + {1};
        }
        if 2 in from.hasBits {
          rspdesc, hasBits := from.rspdesc, hasBits + {2};
        }
      }
      unknown := unknown + from.unknown;
    }
  }

  class LoginRsp {
    var rspinfo: RspInfo?
    var hasRspinfo: bool
    var unknown: seq<Field>
    var cachedSize: nat

    ghost function Repr(): (r: set<object>)
      reads this
      ensures this in r
    {
      if rspinfo == null then {this} else {this, rspinfo}
    }

    /** The embedded message may be allocated while its has-bit is clear, and is empty then. */
    ghost predicate Valid()
      reads Repr()
    {
      && (hasRspinfo ==> rspinfo != null)
      && (rspinfo != null ==> rspinfo.Valid() && (!hasRspinfo ==> rspinfo.View() == M.EMPTY_INFO))
      && forall k :: 0 <= k < |unknown| ==> FixedSizes(unknown[k])
    }

    ghost function View(): M.LoginRsp
      requires Valid()
      reads Repr()
    {
      M.LoginRsp(if hasRspinfo then Some(rspinfo.View()) else None, unknown)
    }

    constructor ()
      ensures Valid() && fresh(Repr()) && View() == M.EMPTY_RSP
    {
      rspinfo, hasRspinfo, unknown, cachedSize := null, false, [], 0;
    }

    /** The embedded message is emptied, not freed. */
    method Clear()
      requires Valid()
      modifies Repr()
      ensures Valid() && Repr() == old(Repr()) && View() == M.EMPTY_RSP
    {
      if hasRspinfo {
        rspinfo.Clear();
      }
      hasRspinfo, unknown := false, [];
    }

    method MutableRspinfo() returns (info: RspInfo)
      requires Valid()
      modifies this
      ensures Valid() && fresh(Repr() - old(Repr())) && rspinfo == info
      ensures View() == old(View()).(rspinfo := Some(M.InfoOf(old(View()).rspinfo)))
    {
      hasRspinfo := true;
      if rspinfo == null {
        rspinfo := new RspInfo();
      }
      return rspinfo;
    }

    // ---------- Parsing ----------

    method MergePartialFromCodedStream(input: CodedInputStream) returns (ok: bool)
      requires Valid() && input.Valid()
      modifies Repr(), input
      ensures Valid() && input.Valid() && fresh(Repr() - old(Repr()))
      ensures ok <==> Loop(old(input.Rest()), old(View()), M.ApplyRsp).Ended?
      ensures ok ==> var r := Loop(old(input.Rest()), old(View()), M.ApplyRsp);
                     View() == r.m && (input.legitimateEnd <==> r.rest == [])
    {
      hide Loop, W.ReadTag, AfterTag, M.ApplyRsp;
      ghost var r := Loop(input.Rest(), View(), M.ApplyRsp);
      while true
        invariant Valid() && input.Valid() && fresh(Repr() - old(Repr()))
        invariant r == Loop(input.Rest(), View(), M.ApplyRsp)
        decreases |input.Rest()|
      {
        LoopReadsTag(input.Rest(), View(), M.ApplyRsp);
        var tag := input.ReadTag();
        if tag == 0 {
          return true;
        }
        var flow;
        if tag / 8 == 1 && tag % 8 == 2 {
          flow := CaseRspInfo(input);
        } else {
          flow := HandleUninterpreted(tag, input);
        }
        match flow {
          case Break =>
          case ReturnTrue => return true;
          case ReturnFalse => return false;
        }
      }
    }

    method CaseRspInfo(input: CodedInputStream) returns (flow: Flow)
      requires Valid() && input.Valid() && !input.legitimateEnd
      modifies Repr(), input
      ensures Valid() && input.Valid() && input.pos >= old(input.pos) && fresh(Repr() - old(Repr()))
      ensures Leaves(flow, AfterTag(10, old(input.Rest()), old(View()), M.ApplyRsp), View(), input.Rest(),
                     input.legitimateEnd, M.ApplyRsp)
    {
      hide Loop, DecodePayload, W.ReadTag;
      var ok, b := input.ReadChunk();
      if !ok {
        return ReturnFalse;
      }
      ok := MergeRspInfo(b);
      if !ok {
        AfterBadField(10, old(input.Rest()), old(View()), M.ApplyRsp, Chunk(b), input.Rest());
        return ReturnFalse;
      }
      AfterField(10, old(input.Rest()), old(View()), M.ApplyRsp, Chunk(b), input.Rest(), View());
      LoopAtEnd(View(), M.ApplyRsp);
      var end := input.ExpectAtEnd();
      return if end then ReturnTrue else Break;
    }

    /** ReadMessageNoVirtual on the bytes below the limit: parse onto what is there, all of it. */
    method MergeRspInfo(b: bytes) returns (ok: bool)
      requires Valid()
      modifies Repr()
      ensures Valid() && fresh(Repr() - old(Repr()))
      ensures M.ApplyRsp(old(View()), Field(1, Chunk(b))) == if ok then Some(View()) else None
    {
      hide Loop, M.ApplyInfo;
      var info := MutableRspinfo();
      var within := new CodedInputStream(b);
      assert rspinfo == info;
      ok := info.MergePartialFromCodedStream(within);
      ok := ok && within.legitimateEnd;
    }

    method HandleUninterpreted(tag: nat, input: CodedInputStream) returns (flow: Flow)
      requires Valid() && input.Valid() && tag !in {0, 10} && !input.legitimateEnd
      modifies this, input
      ensures Valid() && input.Valid() && input.pos >= old(input.pos) && Repr() == old(Repr())
      ensures tag % 8 != END_GROUP ==>
                Leaves(flow, AfterTag(tag, old(input.Rest()), old(View()), M.ApplyRsp), View(), input.Rest(),
                       input.legitimateEnd, M.ApplyRsp)
      ensures tag % 8 == END_GROUP ==>
                flow == ReturnTrue && View() == old(View()) && !input.legitimateEnd
    {
      hide Loop, DecodePayload;
      if tag % 8 == END_GROUP {
        return ReturnTrue;
      }
      var ok, f := input.SkipField(tag);
      if !ok {
        return ReturnFalse;
      }
      unknown := unknown + [f];
      AfterField(tag, old(input.Rest()), old(View()), M.ApplyRsp, f.payload, input.Rest(), View());
      return Break;
    }

    // ---------- Serializing ----------

    /** The size of the embedded message has been stored by ByteSize. */
    ghost predicate Sized()
      requires Valid()
      reads Repr()
    {
      hasRspinfo ==> rspinfo.cachedSize == |EncodeFields(M.InfoFields(rspinfo.View()))|
    }

    method ByteSize() returns (totalSize: nat)
      requires Valid()
      modifies Repr()
      ensures Valid() && View() == old(View()) && Sized()
      ensures totalSize == cachedSize == |EncodeFields(M.RspFields(View()))|
    {
      hide EncodeFields, EncodeField, VarintSize;
      totalSize := 0;
      ghost var v := View();
      NoFields();
      ghost var all := M.RspFields(v);
      if hasRspinfo {
        ghost var body := EncodeFields(M.InfoFields(rspinfo.View()));
        var size := rspinfo.ByteSize();
        NextChunkSize(all, 0, 1, body);
        totalSize := totalSize + 1 + VarintSize(size) + size;
        assert all == all[..1] + unknown;
        EncodeFieldsAppend(all[..1], unknown);
      } else {
        assert all == unknown;
      }
      var unknownSize := FieldsSize(unknown);
      totalSize := totalSize + unknownSize;
      cachedSize := totalSize;
    }

    /** The length in front of the embedded message is the stored one. */
    method SerializeWithCachedSizes(output: CodedOutputStream)
      requires Valid() && Sized() && output !in Repr()
      modifies output
      ensures output.written == old(output.written) + EncodeFields(M.RspFields(View()))
    {
      hide EncodeFields, EncodeVarint;
      ghost var before, all := output.written, M.RspFields(View());
      NoFields();
      if hasRspinfo {
        output.WriteVarint(10);
        output.WriteVarint(rspinfo.cachedSize);
        rspinfo.SerializeWithCachedSizes(output);
        ghost var body := EncodeFields(M.InfoFields(rspinfo.View()));
        EmbeddedFirst(all, body);
        assert all[1..] == unknown;
        assert output.written == before + (EncodeVarint(10) + (EncodeVarint(|body|) + body));
      } else {
        assert all == unknown;
      }
      output.WriteFields(unknown);
    }

    method SerializeWithCachedSizesToArray(target: array<byte>, at: nat) returns (next: nat)
      requires Valid() && Sized() && at + |EncodeFields(M.RspFields(View()))| <= target.Length
      modifies target
      ensures next == at + |EncodeFields(M.RspFields(View()))|
      ensures target[..] == Overwritten(old(target[..]), at, EncodeFields(M.RspFields(View())))
    {
      hide EncodeFields, EncodeVarint, Overwritten;
      ghost var before, all := target[..], M.RspFields(View());
      next := at;
      if hasRspinfo {
        ghost var body := EncodeFields(M.InfoFields(rspinfo.View()));
        ghost var head := EncodeVarint(10);
        ghost var size := EncodeVarint(|body|);
        EmbeddedFirst(all, body);
        assert all[1..] == unknown;
        next := WriteVarintToArray(10, target, next);
        OverwrittenTwice(before, at, head, size);
        next := WriteVarintToArray(rspinfo.cachedSize, target, next);
        OverwrittenTwice(before, at, head + size, body);
        next := rspinfo.SerializeWithCachedSizesToArray(target, next);
        Regroup(head, size, body);
        OverwrittenTwice(before, at, head + (size + body), EncodeFields(unknown));
      } else {
        OverwrittenByNothing(before, at);
        assert all == unknown;
      }
      next := WriteFieldsToArray(unknown, target, next);
    }

    lemma EmbeddedFirst(all: seq<Field>, body: bytes)
      requires all != [] && all[0] == Field(1, Chunk(body))
      ensures EncodeFields(all) == (EncodeVarint(10) + (EncodeVarint(|body|) + body)) + EncodeFields(all[1..])
    {
    }

    method MergeFrom(from: LoginRsp)
      requires Valid() && from.Valid() && Repr() !! from.Repr()
      modifies Repr()
      ensures Valid() && fresh(Repr() - old(Repr())) && View() == M.MergeRsp(old(View()), from.View())
    {
      hide M.MergeInfo;
      if from.hasRspinfo {
        var info := MutableRspinfo();
        info.MergeFrom(from.rspinfo);
      }
      unknown := unknown + from.unknown;
    }
  }
}
