/** The bus messages as values: how a field is applied, how messages merge, and which fields a message writes. */
module PbMessages {
  import opened Bytes
  import opened PbWire

  function Over<T>(a: Option<T>, b: Option<T>): Option<T> {
    if b.Some? then b else a
  }

  function Present<T>(number: nat, v: Option<T>, wrap: T -> Payload): seq<Field> {
    if v.Some? then [Field(number, wrap(v.value))] else []
  }

  predicate IsNumber(f: Field, number: nat) {
    f.number == number && f.payload.Number?
  }

  predicate IsChunk(f: Field, number: nat) {
    f.number == number && f.payload.Chunk?
  }

  predicate SmallNumber(v: Option<nat>, bound: nat) {
    v.Some? ==> v.value < bound
  }

  predicate ShortChunk(v: Option<bytes>) {
    v.Some? ==> |v.value| < 0x8000_0000
  }

  lemma {:induction false} ApplyAllAppend<M>(m: M, a: seq<Field>, b: seq<Field>, apply: (M, Field) -> Option<M>)
    ensures ApplyAll(m, a + b, apply)
         == match ApplyAll(m, a, apply) case None => None case Some(m') => ApplyAll(m', b, apply)
    decreases |a|
  {
    if a == [] {
      assert a + b == b;
    } else {
      assert (a + b)[1..] == a[1..] + b;
      match apply(m, a[0])
      case None =>
      case Some(m') => ApplyAllAppend(m', a[1..], b, apply);
    }
  }

  // ---------- BusHead: requestID = 1, serviceName = 2, data = 3, endFlag = 4 ----------

  /** A field is present exactly when its has-bit is set. */
  datatype BusHead = BusHead(requestid: Option<nat>, servicename: Option<bytes>, data: Option<bytes>,
                             endflag: Option<nat>, unknown: seq<Field>)

  const EMPTY_HEAD: BusHead := BusHead(None, None, None, None, [])

  predicate KnownToHead(f: Field) {
    IsNumber(f, 1) || IsChunk(f, 2) || IsChunk(f, 3) || IsNumber(f, 4)
  }

  function ApplyHead(m: BusHead, f: Field): Option<BusHead> {
    if IsNumber(f, 1) then Some(m.(requestid := Some(f.payload.n)))
    else if IsChunk(f, 2) then Some(m.(servicename := Some(f.payload.b)))
    else if IsChunk(f, 3) then Some(m.(data := Some(f.payload.b)))
    else if IsNumber(f, 4) then Some(m.(endflag := Some(f.payload.n % WORD32)))
    else Some(m.(unknown := m.unknown + [f]))
  }

  function MergeHead(m: BusHead, from: BusHead): BusHead {
    BusHead(Over(m.requestid, from.requestid), Over(m.servicename, from.servicename), Over(m.data, from.data),
            Over(m.endflag, from.endflag), m.unknown + from.unknown)
  }

  function KnownHeadFields(m: BusHead): seq<Field> {
    Present(1, m.requestid, n => Number(n)) + Present(2, m.servicename, b => Chunk(b))
    + Present(3, m.data, b => Chunk(b)) + Present(4, m.endflag, n => Number(n))
  }

  function Count<T>(v: Option<T>): nat {
    if v.Some? then 1 else 0
  }

  /** Where each of the fields stands. */
  lemma KnownHeadAt(m: BusHead)
    ensures var k, i2 := KnownHeadFields(m), Count(m.requestid);
            var i3 := i2 + Count(m.servicename);
            var i4 := i3 + Count(m.data);
            && |k| == i4 + Count(m.endflag)
            && (m.requestid.Some? ==> k[0] == Field(1, Number(m.requestid.value)))
            && (m.servicename.Some? ==> k[i2] == Field(2, Chunk(m.servicename.value)))
            && (m.data.Some? ==> k[i3] == Field(3, Chunk(m.data.value)))
            && (m.endflag.Some? ==> k[i4] == Field(4, Number(m.endflag.value)))
  {
  }

  function HeadFields(m: BusHead): seq<Field> {
    KnownHeadFields(m) + m.unknown
  }

  /** The values the C++ field types can hold, and unknown fields that are unknown. */
  predicate ValidHead(m: BusHead) {
    && SmallNumber(m.requestid, WORD64) && ShortChunk(m.servicename) && ShortChunk(m.data)
    && SmallNumber(m.endflag, WORD32)
    && forall k :: 0 <= k < |m.unknown| ==> ValidField(m.unknown[k]) && !KnownToHead(m.unknown[k])
  }

  lemma {:induction false} ApplyUnknownHead(m: BusHead, us: seq<Field>)
    requires forall k :: 0 <= k < |us| ==> !KnownToHead(us[k])
    ensures ApplyAll(m, us, ApplyHead) == Some(m.(unknown := m.unknown + us))
    decreases |us|
  {
    if us == [] {
      assert m.unknown + us == m.unknown;
    } else {
      ApplyUnknownHead(m.(unknown := m.unknown + [us[0]]), us[1..]);
      assert m.unknown + us == m.unknown + [us[0]] + us[1..];
    }
  }

  lemma ApplyKnownHead(m: BusHead)
    requires SmallNumber(m.endflag, WORD32)
    ensures ApplyAll(EMPTY_HEAD, KnownHeadFields(m), ApplyHead) == Some(m.(unknown := []))
  {
    var f1, f2 := Present(1, m.requestid, n => Number(n)), Present(2, m.servicename, b => Chunk(b));
    var f3, f4 := Present(3, m.data, b => Chunk(b)), Present(4, m.endflag, n => Number(n));
    ApplyAllAppend(EMPTY_HEAD, f1 + f2 + f3, f4, ApplyHead);
    ApplyAllAppend(EMPTY_HEAD, f1 + f2, f3, ApplyHead);
    ApplyAllAppend(EMPTY_HEAD, f1, f2, ApplyHead);
  }

  lemma HeadFieldsValid(m: BusHead)
    requires ValidHead(m)
    ensures forall k :: 0 <= k < |HeadFields(m)| ==> ValidField(HeadFields(m)[k])
  {
  }

  /** Parsing a serialized BusHead gives the message back: fields, presence and unknown fields. */
  lemma ParseOfSerializedHead(m: BusHead)
    requires ValidHead(m)
    ensures Loop(EncodeFields(HeadFields(m)), EMPTY_HEAD, ApplyHead) == Ended(m, [])
  {
    hide Loop, EncodeFields, KnownHeadFields;
    HeadFieldsValid(m);
    LoopOfFields(HeadFields(m), EMPTY_HEAD, ApplyHead);
    ApplyAllAppend(EMPTY_HEAD, KnownHeadFields(m), m.unknown, ApplyHead);
    ApplyKnownHead(m);
    ApplyUnknownHead(m.(unknown := []), m.unknown);
    assert [] + m.unknown == m.unknown;
  }

  lemma HeadMergesOne(m: BusHead, x: BusHead, f: Field)
    ensures ApplyHead(MergeHead(m, x), f) == Some(MergeHead(m, ApplyHead(x, f).value))
  {
    hide IsNumber, IsChunk;
    if IsNumber(f, 1) {
    } else if IsChunk(f, 2) {
    } else if IsChunk(f, 3) {
    } else if IsNumber(f, 4) {
    } else {
      assert m.unknown + x.unknown + [f] == m.unknown + (x.unknown + [f]);
    }
  }

  lemma HeadMerges()
    ensures Merges(MergeHead, ApplyHead) && forall m :: MergeHead(m, EMPTY_HEAD) == m
  {
    forall m: BusHead, x: BusHead, f
      ensures ApplyHead(MergeHead(m, x), f) == Some(MergeHead(m, ApplyHead(x, f).value))
    {
      HeadMergesOne(m, x, f);
    }
    forall m
      ensures MergeHead(m, EMPTY_HEAD) == m
    {
      assert m.unknown + [] == m.unknown;
    }
  }

  /** Parsing two encodings one after the other is MergeFrom of the two messages: the last one wins. */
  lemma HeadConcatIsMerge(a: bytes, b: bytes)
    requires Complete(Loop(a, EMPTY_HEAD, ApplyHead)) && Complete(Loop(b, EMPTY_HEAD, ApplyHead))
    ensures Loop(a + b, EMPTY_HEAD, ApplyHead)
         == Ended(MergeHead(Loop(a, EMPTY_HEAD, ApplyHead).m, Loop(b, EMPTY_HEAD, ApplyHead).m), [])
  {
    HeadMerges();
    ConcatIsMerge(a, b, EMPTY_HEAD, MergeHead, ApplyHead);
  }

  // ---------- RspInfo: rspNo = 1, rspDesc = 2 ----------

  datatype RspInfo = RspInfo(rspno: Option<nat>, rspdesc: Option<bytes>, unknown: seq<Field>)

  const EMPTY_INFO: RspInfo := RspInfo(None, None, [])

  predicate KnownToInfo(f: Field) {
    IsNumber(f, 1) || IsChunk(f, 2)
  }

  function ApplyInfo(m: RspInfo, f: Field): Option<RspInfo> {
    if IsNumber(f, 1) then Some(m.(rspno := Some(f.payload.n % WORD32)))
    else if IsChunk(f, 2) then Some(m.(rspdesc := Some(f.payload.b)))
    else Some(m.(unknown := m.unknown + [f]))
  }

  function MergeInfo(m: RspInfo, from: RspInfo): RspInfo {
    RspInfo(Over(m.rspno, from.rspno), Over(m.rspdesc, from.rspdesc), m.unknown + from.unknown)
  }

  function KnownInfoFields(m: RspInfo): seq<Field> {
    Present(1, m.rspno, n => Number(n)) + Present(2, m.rspdesc, b => Chunk(b))
  }

  function InfoFields(m: RspInfo): seq<Field> {
    KnownInfoFields(m) + m.unknown
  }

  predicate ValidInfo(m: RspInfo) {
    && SmallNumber(m.rspno, WORD32) && ShortChunk(m.rspdesc)
    && forall k :: 0 <= k < |m.unknown| ==> ValidField(m.unknown[k]) && !KnownToInfo(m.unknown[k])
  }

  lemma {:induction false} ApplyUnknownInfo(m: RspInfo, us: seq<Field>)
    requires forall k :: 0 <= k < |us| ==> !KnownToInfo(us[k])
    ensures ApplyAll(m, us, ApplyInfo) == Some(m.(unknown := m.unknown + us))
    decreases |us|
  {
    if us == [] {
      assert m.unknown + us == m.unknown;
    } else {
      ApplyUnknownInfo(m.(unknown := m.unknown + [us[0]]), us[1..]);
      assert m.unknown + us == m.unknown + [us[0]] + us[1..];
    }
  }

  lemma InfoFieldsValid(m: RspInfo)
    requires ValidInfo(m)
    ensures forall k :: 0 <= k < |InfoFields(m)| ==> ValidField(InfoFields(m)[k])
  {
  }

  lemma ApplyKnownInfo(m: RspInfo)
    requires ValidInfo(m)
    ensures ApplyAll(EMPTY_INFO, KnownInfoFields(m), ApplyInfo) == Some(m.(unknown := []))
  {
    var f1, f2 := Present(1, m.rspno, n => Number(n)), Present(2, m.rspdesc, b => Chunk(b));
    ApplyAllAppend(EMPTY_INFO, f1, f2, ApplyInfo);
  }

  lemma ParseOfSerializedInfo(m: RspInfo)
    requires ValidInfo(m)
    ensures Loop(EncodeFields(InfoFields(m)), EMPTY_INFO, ApplyInfo) == Ended(m, [])
  {
    hide Loop, EncodeFields, KnownInfoFields;
    InfoFieldsValid(m);
    LoopOfFields(InfoFields(m), EMPTY_INFO, ApplyInfo);
    ApplyAllAppend(EMPTY_INFO, KnownInfoFields(m), m.unknown, ApplyInfo);
    ApplyKnownInfo(m);
    ApplyUnknownInfo(m.(unknown := []), m.unknown);
    assert [] + m.unknown == m.unknown;
  }

  lemma InfoMerges()
    ensures Merges(MergeInfo, ApplyInfo) && forall m :: MergeInfo(m, EMPTY_INFO) == m
  {
    forall m: RspInfo, x: RspInfo, f
      ensures ApplyInfo(MergeInfo(m, x), f) == Some(MergeInfo(m, ApplyInfo(x, f).value))
    {
      assert m.unknown + x.unknown + [f] == m.unknown + (x.unknown + [f]);
    }
    forall m
      ensures MergeInfo(m, EMPTY_INFO) == m
    {
      assert m.unknown + [] == m.unknown;
    }
  }

  // ---------- LoginRsp: rspInfo = 1, a message ----------

  datatype LoginRsp = LoginRsp(rspinfo: Option<RspInfo>, unknown: seq<Field>)

  const EMPTY_RSP: LoginRsp := LoginRsp(None, [])

  /** mutable_rspinfo(): what is there, or an empty one. */
  function InfoOf(v: Option<RspInfo>): RspInfo {
    if v.Some? then v.value else EMPTY_INFO
  }

  /** An embedded message is parsed onto the one already there and has to be consumed whole. */
  function ApplyRsp(m: LoginRsp, f: Field): Option<LoginRsp> {
    if IsChunk(f, 1) then
      var r := Loop(f.payload.b, InfoOf(m.rspinfo), ApplyInfo);
      if Complete(r) then Some(m.(rspinfo := Some(r.m))) else None
    else Some(m.(unknown := m.unknown + [f]))
  }

  function MergeRsp(m: LoginRsp, from: LoginRsp): LoginRsp {
    LoginRsp(if from.rspinfo.Some? then Some(MergeInfo(InfoOf(m.rspinfo), from.rspinfo.value)) else m.rspinfo,
             m.unknown + from.unknown)
  }

  function RspFields(m: LoginRsp): seq<Field> {
    Present(1, m.rspinfo, r => Chunk(EncodeFields(InfoFields(r)))) + m.unknown
  }

  predicate ValidRsp(m: LoginRsp) {
    && (m.rspinfo.Some? ==> ValidInfo(m.rspinfo.value) && |EncodeFields(InfoFields(m.rspinfo.value))| < 0x8000_0000)
    && forall k :: 0 <= k < |m.unknown| ==> ValidField(m.unknown[k]) && !IsChunk(m.unknown[k], 1)
  }

  lemma {:induction false} ApplyUnknownRsp(m: LoginRsp, us: seq<Field>)
    requires forall k :: 0 <= k < |us| ==> !IsChunk(us[k], 1)
    ensures ApplyAll(m, us, ApplyRsp) == Some(m.(unknown := m.unknown + us))
    decreases |us|
  {
    if us == [] {
      assert m.unknown + us == m.unknown;
    } else {
      ApplyUnknownRsp(m.(unknown := m.unknown + [us[0]]), us[1..]);
      assert m.unknown + us == m.unknown + [us[0]] + us[1..];
    }
  }

  lemma ParseOfSerializedRsp(m: LoginRsp)
    requires ValidRsp(m)
    ensures Loop(EncodeFields(RspFields(m)), EMPTY_RSP, ApplyRsp) == Ended(m, [])
  {
    hide Loop, EncodeFields;
    LoopOfFields(RspFields(m), EMPTY_RSP, ApplyRsp);
    var f1 := Present(1, m.rspinfo, r => Chunk(EncodeFields(InfoFields(r))));
    ApplyAllAppend(EMPTY_RSP, f1, m.unknown, ApplyRsp);
    if m.rspinfo.Some? {
      ParseOfSerializedInfo(m.rspinfo.value);
    }
    ApplyUnknownRsp(m.(unknown := []), m.unknown);
    assert [] + m.unknown == m.unknown;
  }

  /** The embedded message merges recursively. */
  lemma ApplyRspMerges(m: LoginRsp, x: LoginRsp, f: Field)
    ensures match ApplyRsp(x, f)
            case None => ApplyRsp(MergeRsp(m, x), f) == None
            case Some(x') => ApplyRsp(MergeRsp(m, x), f) == Some(MergeRsp(m, x'))
  {
    hide Loop;
    if IsChunk(f, 1) {
      InfoMerges();
      var base := InfoOf(m.rspinfo);
      assert InfoOf(MergeRsp(m, x).rspinfo) == MergeInfo(base, InfoOf(x.rspinfo)) by {
        assert MergeInfo(base, EMPTY_INFO) == base;
      }
      LoopMerges(f.payload.b, base, InfoOf(x.rspinfo), MergeInfo, ApplyInfo);
    } else {
      assert m.unknown + x.unknown + [f] == m.unknown + (x.unknown + [f]);
    }
  }

  lemma RspConcatIsMerge(a: bytes, b: bytes)
    requires Complete(Loop(a, EMPTY_RSP, ApplyRsp)) && Complete(Loop(b, EMPTY_RSP, ApplyRsp))
    ensures Loop(a + b, EMPTY_RSP, ApplyRsp)
         == Ended(MergeRsp(Loop(a, EMPTY_RSP, ApplyRsp).m, Loop(b, EMPTY_RSP, ApplyRsp).m), [])
  {
    hide Loop;
    forall m: LoginRsp, x: LoginRsp, f
      ensures match ApplyRsp(x, f)
              case None => ApplyRsp(MergeRsp(m, x), f) == None
              case Some(x') => ApplyRsp(MergeRsp(m, x), f) == Some(MergeRsp(m, x'))
    {
      ApplyRspMerges(m, x, f);
    }
    forall m
      ensures MergeRsp(m, EMPTY_RSP) == m
    {
      assert m.unknown + [] == m.unknown;
    }
    ConcatIsMerge(a, b, EMPTY_RSP, MergeRsp, ApplyRsp);
  }

  // ---------- LoginReq: serviceNo = 1, repeated ----------

  datatype LoginReq = LoginReq(serviceno: seq<nat>, unknown: seq<Field>)

  const EMPTY_REQ: LoginReq := LoginReq([], [])

  /** The values of a packed run, or None if it does not end with a varint. */
  function PackedValues(b: bytes): (r: Option<seq<nat>>)
    decreases |b|
  {
    if b == [] then Some([])
    else
      match ReadVarint(b)
      case NoVarint => None
      case Varint(n, rest) =>
        match PackedValues(rest)
        case None => None
        case Some(ns) => Some([n % WORD32] + ns)
  }

  function ApplyReq(m: LoginReq, f: Field): Option<LoginReq> {
    if IsNumber(f, 1) then Some(m.(serviceno := m.serviceno + [f.payload.n % WORD32]))
    else if IsChunk(f, 1) then
      match PackedValues(f.payload.b)
      case None => None
      case Some(ns) => Some(m.(serviceno := m.serviceno + ns))
    else Some(m.(unknown := m.unknown + [f]))
  }

  function MergeReq(m: LoginReq, from: LoginReq): LoginReq {
    LoginReq(m.serviceno + from.serviceno, m.unknown + from.unknown)
  }

  function Numbers(ns: seq<nat>): (r: seq<Field>)
    ensures |r| == |ns| && forall k :: 0 <= k < |ns| ==> r[k] == Field(1, Number(ns[k]))
  {
    seq(|ns|, k requires 0 <= k < |ns| => Field(1, Number(ns[k])))
  }

  function ReqFields(m: LoginReq): seq<Field> {
    Numbers(m.serviceno) + m.unknown
  }

  predicate Words(ns: seq<nat>) {
    forall k :: 0 <= k < |ns| ==> ns[k] < WORD32
  }

  predicate ValidReq(m: LoginReq) {
    && Words(m.serviceno)
    && forall k :: 0 <= k < |m.unknown| ==>
         ValidField(m.unknown[k]) && !IsNumber(m.unknown[k], 1) && !IsChunk(m.unknown[k], 1)
  }

  lemma {:induction false} ApplyNumbers(m: LoginReq, ns: seq<nat>)
    requires Words(ns)
    ensures ApplyAll(m, Numbers(ns), ApplyReq) == Some(m.(serviceno := m.serviceno + ns))
    decreases |ns|
  {
    if ns == [] {
      assert m.serviceno + ns == m.serviceno;
    } else {
      assert Numbers(ns)[1..] == Numbers(ns[1..]);
      ApplyNumbers(m.(serviceno := m.serviceno + [ns[0]]), ns[1..]);
      assert m.serviceno + ns == m.serviceno + [ns[0]] + ns[1..];
    }
  }

  lemma {:induction false} ApplyUnknownReq(m: LoginReq, us: seq<Field>)
    requires forall k :: 0 <= k < |us| ==> !IsNumber(us[k], 1) && !IsChunk(us[k], 1)
    ensures ApplyAll(m, us, ApplyReq) == Some(m.(unknown := m.unknown + us))
    decreases |us|
  {
    if us == [] {
      assert m.unknown + us == m.unknown;
    } else {
      ApplyUnknownReq(m.(unknown := m.unknown + [us[0]]), us[1..]);
      assert m.unknown + us == m.unknown + [us[0]] + us[1..];
    }
  }

  lemma ParseOfSerializedReq(m: LoginReq)
    requires ValidReq(m)
    ensures Loop(EncodeFields(ReqFields(m)), EMPTY_REQ, ApplyReq) == Ended(m, [])
  {
    hide Loop, EncodeFields;
    LoopOfFields(ReqFields(m), EMPTY_REQ, ApplyReq);
    ApplyAllAppend(EMPTY_REQ, Numbers(m.serviceno), m.unknown, ApplyReq);
    ApplyNumbers(EMPTY_REQ, m.serviceno);
    assert [] + m.serviceno == m.serviceno;
    ApplyUnknownReq(m.(unknown := []), m.unknown);
    assert [] + m.unknown == m.unknown;
  }

  lemma ReqConcatIsMerge(a: bytes, b: bytes)
    requires Complete(Loop(a, EMPTY_REQ, ApplyReq)) && Complete(Loop(b, EMPTY_REQ, ApplyReq))
    ensures Loop(a + b, EMPTY_REQ, ApplyReq)
         == Ended(MergeReq(Loop(a, EMPTY_REQ, ApplyReq).m, Loop(b, EMPTY_REQ, ApplyReq).m), [])
  {
    hide Loop, PackedValues;
    forall m: LoginReq, x: LoginReq, f
      ensures match ApplyReq(x, f)
              case None => ApplyReq(MergeReq(m, x), f) == None
              case Some(x') => ApplyReq(MergeReq(m, x), f) == Some(MergeReq(m, x'))
    {
      ApplyReqMerges(m, x, f);
    }
    forall m
      ensures MergeReq(m, EMPTY_REQ) == m
    {
      assert m.serviceno + [] == m.serviceno && m.unknown + [] == m.unknown;
    }
    ConcatIsMerge(a, b, EMPTY_REQ, MergeReq, ApplyReq);
  }

  lemma ApplyReqMerges(m: LoginReq, x: LoginReq, f: Field)
    ensures match ApplyReq(x, f)
            case None => ApplyReq(MergeReq(m, x), f) == None
            case Some(x') => ApplyReq(MergeReq(m, x), f) == Some(MergeReq(m, x'))
  {
    hide PackedValues;
    if IsNumber(f, 1) {
      var n := f.payload.n % WORD32;
      assert m.serviceno + x.serviceno + [n] == m.serviceno + (x.serviceno + [n]);
    } else if IsChunk(f, 1) {
      var ns := PackedValues(f.payload.b);
      if ns.Some? {
        assert m.serviceno + x.serviceno + ns.value == m.serviceno + (x.serviceno + ns.value);
      }
    } else {
      assert m.unknown + x.unknown + [f] == m.unknown + (x.unknown + [f]);
    }
  }

  // ---------- Packed and unpacked runs ----------

  /** A stretch of service numbers, each with its own tag or all under one. */
  datatype Run = Tagged(ns: seq<nat>) | Packed(ns: seq<nat>)

  function Varints(ns: seq<nat>): bytes {
    if ns == [] then [] else EncodeVarint(ns[0]) + Varints(ns[1..])
  }

  function RunFields(r: Run): seq<Field> {
    if r.Tagged? then Numbers(r.ns) else [Field(1, Chunk(Varints(r.ns)))]
  }

  function RunsFields(rs: seq<Run>): seq<Field> {
    if rs == [] then [] else RunFields(rs[0]) + RunsFields(rs[1..])
  }

  function RunsValues(rs: seq<Run>): seq<nat> {
    if rs == [] then [] else rs[0].ns + RunsValues(rs[1..])
  }

  predicate ValidRun(r: Run) {
    Words(r.ns) && (r.Packed? ==> |Varints(r.ns)| < 0x8000_0000)
  }

  lemma {:induction false} PackedUndoesVarints(ns: seq<nat>)
    requires Words(ns)
    ensures PackedValues(Varints(ns)) == Some(ns)
  {
    hide EncodeVarint, ReadVarint;
    if ns == [] {
    } else {
      ReadUndoesEncode(ns[0], Varints(ns[1..]));
      PackedUndoesVarints(ns[1..]);
      assert ns == [ns[0]] + ns[1..];
    }
  }

  lemma {:induction false} ApplyRuns(m: LoginReq, rs: seq<Run>)
    requires forall k :: 0 <= k < |rs| ==> ValidRun(rs[k])
    ensures ApplyAll(m, RunsFields(rs), ApplyReq) == Some(m.(serviceno := m.serviceno + RunsValues(rs)))
    decreases |rs|
  {
    hide ApplyReq, RunFields, ValidRun;
    if rs == [] {
      assert m.serviceno + [] == m.serviceno;
    } else {
      var ns := rs[0].ns;
      var m' := m.(serviceno := m.serviceno + ns);
      ApplyRun(m, rs[0]);
      ApplyAllAppend(m, RunFields(rs[0]), RunsFields(rs[1..]), ApplyReq);
      ApplyRuns(m', rs[1..]);
      assert m.serviceno + ns + RunsValues(rs[1..]) == m.serviceno + (ns + RunsValues(rs[1..]));
    }
  }

  lemma ApplyRun(m: LoginReq, r: Run)
    requires ValidRun(r)
    ensures ApplyAll(m, RunFields(r), ApplyReq) == Some(m.(serviceno := m.serviceno + r.ns))
  {
    hide PackedValues, Varints;
    if r.Tagged? {
      ApplyNumbers(m, r.ns);
    } else {
      PackedUndoesVarints(r.ns);
      var f := Field(1, Chunk(Varints(r.ns)));
      assert [f][1..] == [];
    }
  }

  lemma {:induction false} RunsFieldsValid(rs: seq<Run>)
    requires forall k :: 0 <= k < |rs| ==> ValidRun(rs[k])
    ensures forall k :: 0 <= k < |RunsFields(rs)| ==> ValidField(RunsFields(rs)[k])
  {
    hide Varints;
    if rs == [] {
    } else {
      RunsFieldsValid(rs[1..]);
    }
  }

  /** However the service numbers are cut into tagged and packed runs, parsing appends them in order. */
  lemma ParseOfRuns(rs: seq<Run>)
    requires forall k :: 0 <= k < |rs| ==> ValidRun(rs[k])
    ensures Loop(EncodeFields(RunsFields(rs)), EMPTY_REQ, ApplyReq) == Ended(LoginReq(RunsValues(rs), []), [])
  {
    hide Loop, EncodeFields, RunsFields;
    RunsFieldsValid(rs);
    LoopOfFields(RunsFields(rs), EMPTY_REQ, ApplyReq);
    ApplyRuns(EMPTY_REQ, rs);
    assert [] + RunsValues(rs) == RunsValues(rs);
  }
}
