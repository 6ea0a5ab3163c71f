/**
  The wire format byte by byte: the groups of a varint, the tags of the messages, what an accepted varint looks like,
  which occurrence of a field wins, and that an encoding that is cut off is noticed.
 */
module PbBytes {
  import opened Bytes
  import opened PbWire
  import opened PbMessages

  // ---------- Varints ----------

  lemma Power128Positive(k: nat)
    ensures Power128(k) > 0
  {
  }

  lemma DivideTwice(n: nat, k: nat)
    ensures Power128(k) > 0 && n / 128 / Power128(k) == n / Power128(k + 1)
  {
    Power128Positive(k);
    var p, q := Power128(k), n / 128 / Power128(k);
    var r, t := n / 128 % p, n % 128;
    assert n / 128 == p * q + r && n == 128 * (n / 128) + t;
    assert n == 128 * p * q + (128 * r + t) && 0 <= 128 * r + t < 128 * p;
    QuotientIs(n, 128 * p, q, 128 * r + t);
  }

  lemma {:induction false} MultipleIsLarge(d: nat, x: nat)
    requires x > 0
    ensures d * x >= d
  {
    if x > 1 {
      MultipleIsLarge(d, x - 1);
    }
  }

  lemma QuotientIs(n: nat, d: nat, q: nat, r: nat)
    requires r < d && n == d * q + r
    ensures n / d == q
  {
    var a, b := n / d, n % d;
    assert d * (a - q) == r - b && d * (q - a) == b - r;
    if a > q {
      MultipleIsLarge(d, a - q);
    } else if a < q {
      MultipleIsLarge(d, q - a);
    }
  }

  /** No group in front is missing or to spare, and every byte but the last one has its highest bit set. */
  lemma {:induction false} VarintEnds(n: nat)
    ensures var e := EncodeVarint(n);
            && n < Power128(|e|) && (|e| > 1 ==> n >= Power128(|e| - 1))
            && forall i :: 0 <= i < |e| ==> (e[i] >= 128 <==> i < |e| - 1)
  {
    if n < 128 {
      assert Power128(1) == 128;
    } else {
      VarintEnds(n / 128);
      assert Power128(0) == 1;
    }
  }

  /** Byte i holds the i-th group of seven bits, least significant first. */
  lemma {:induction false} VarintGroup(n: nat, i: nat)
    requires i < |EncodeVarint(n)|
    ensures Power128(i) > 0 && EncodeVarint(n)[i] % 128 == n / Power128(i) % 128
    decreases i
  {
    if i == 0 {
      assert Power128(0) == 1;
    } else {
      VarintGroup(n / 128, i - 1);
      DivideTwice(n, i - 1);
    }
  }

  /** The number that groups of seven bits make up, the least significant group first. */
  function GroupsValue(s: bytes): nat {
    if s == [] then 0 else GroupsValue(s[..|s| - 1]) + s[|s| - 1] % 128 * Power128(|s| - 1)
  }

  lemma {:induction false} GroupsFromFront(s: bytes)
    requires s != []
    ensures GroupsValue(s) == s[0] % 128 + 128 * GroupsValue(s[1..])
    decreases |s|
  {
    var last := |s| - 1;
    if last == 0 {
      assert s[..0] == [] && Power128(0) == 1;
    } else {
      GroupsFromFront(s[..last]);
      assert s[..last][1..] == s[1..][..last - 1];
      MoveFactor(s[last] % 128, Power128(last - 1));
    }
  }

  lemma MoveFactor(a: nat, b: nat)
    ensures a * (128 * b) == 128 * (a * b)
  {
  }

  /** s begins with k bytes whose highest bit is set and one whose highest bit is not. */
  predicate EndsAt(s: bytes, k: nat) {
    k < |s| && s[k] < 128 && forall i :: 0 <= i < k ==> s[i] >= 128
  }

  /** A varint is read exactly where one of its first max bytes ends it, minimal or not. */
  lemma {:induction false} DecodeExactly(s: bytes, max: nat)
    ensures DecodeVarint(s, max) == NoVarint <==> forall k: nat :: k < max ==> !EndsAt(s, k)
    ensures forall k: nat :: k < max && EndsAt(s, k) ==>
              DecodeVarint(s, max) == Varint(GroupsValue(s[..k + 1]), s[k + 1..])
    decreases max
  {
    hide GroupsValue;
    if max == 0 || s == [] {
    } else if s[0] < 128 {
      assert EndsAt(s, 0);
      assert GroupsValue(s[..1]) == s[0] by {
        GroupsFromFront(s[..1]);
        NoGroups(s[..1][1..]);
      }
    } else {
      DecodeExactly(s[1..], max - 1);
      forall k: nat | 0 < k < max
        ensures EndsAt(s, k) <==> EndsAt(s[1..], k - 1)
        ensures EndsAt(s, k) ==> DecodeVarint(s, max) == Varint(GroupsValue(s[..k + 1]), s[k + 1..])
      {
        EndsBehind(s, k);
        if EndsAt(s, k) {
          GroupsFromFront(s[..k + 1]);
          assert s[..k + 1][1..] == s[1..][..k] && s[1..][k..] == s[k + 1..];
        }
      }
      forall k: nat | k < max - 1
        ensures EndsAt(s[1..], k) <==> EndsAt(s, k + 1)
      {
        EndsBehind(s, k + 1);
      }
    }
  }

  lemma NoGroups(s: bytes)
    requires s == []
    ensures GroupsValue(s) == 0
  {
  }

  lemma EndsBehind(s: bytes, k: nat)
    requires s != [] && s[0] >= 128 && k > 0
    ensures EndsAt(s, k) <==> EndsAt(s[1..], k - 1)
  {
    if EndsAt(s[1..], k - 1) {
      forall i | 0 <= i < k
        ensures s[i] >= 128
      {
        assert i > 0 ==> s[i] == s[1..][i - 1];
      }
    }
  }

  /** Ten bytes at most, and the lowest 64 bits of what they hold. */
  lemma ReadExactly(s: bytes)
    ensures ReadVarint(s) == NoVarint <==> forall k: nat :: k < 10 ==> !EndsAt(s, k)
    ensures forall k: nat :: k < 10 && EndsAt(s, k) ==>
              ReadVarint(s) == Varint(GroupsValue(s[..k + 1]) % 0x1_0000_0000_0000_0000, s[k + 1..])
  {
    hide GroupsValue, EndsAt;
    DecodeExactly(s, 10);
  }

  // ---------- Fields ----------

  /** The tag of a small field number is one byte, and a payload is a varint, a length and its bytes, or bare bytes. */
  lemma FieldBytes(number: nat, n: nat, b: bytes)
    requires number < 16
    ensures EncodeField(Field(number, Number(n))) == [8 * number] + EncodeVarint(n)
    ensures EncodeField(Field(number, Eight(b))) == [8 * number + 1] + b
    ensures EncodeField(Field(number, Chunk(b))) == [8 * number + 2] + (EncodeVarint(|b|) + b)
    ensures EncodeField(Field(number, Four(b))) == [8 * number + 5] + b
  {
  }

  lemma OneField(f: Field)
    ensures EncodeFields([f]) == EncodeField(f)
  {
    assert [f][1..] == [];
  }

  function Tagged<T>(tag: byte, v: Option<T>, encode: T -> bytes): bytes {
    if v.Some? then [tag] + encode(v.value) else []
  }

  function WithLength(b: bytes): bytes {
    EncodeVarint(|b|) + b
  }

  lemma PresentNumber(number: nat, v: Option<nat>)
    requires number < 16
    ensures EncodeFields(Present(number, v, n => Number(n))) == Tagged(8 * number, v, n => EncodeVarint(n))
  {
    hide EncodeField, EncodeFields, EncodeVarint;
    if v.Some? {
      OneField(Field(number, Number(v.value)));
      FieldBytes(number, v.value, []);
    } else {
      assert EncodeFields([]) == [] by { NoFields(); }
    }
  }

  lemma PresentChunk(number: nat, v: Option<bytes>)
    requires number < 16
    ensures EncodeFields(Present(number, v, b => Chunk(b))) == Tagged(8 * number + 2, v, b => WithLength(b))
  {
    hide EncodeField, EncodeFields, EncodeVarint;
    if v.Some? {
      OneField(Field(number, Chunk(v.value)));
      FieldBytes(number, 0, v.value);
    } else {
      NoFields();
    }
  }

  lemma NoFields()
    ensures EncodeFields([]) == []
  {
  }

  /** A serialized BusHead: tag 8, 18, 26 and 32 in that order in front of what is present, then the unknown fields. */
  lemma HeadBytes(m: BusHead)
    ensures EncodeFields(HeadFields(m))
         == Tagged(8, m.requestid, n => EncodeVarint(n)) + Tagged(18, m.servicename, b => WithLength(b))
            + Tagged(26, m.data, b => WithLength(b)) + Tagged(32, m.endflag, n => EncodeVarint(n))
            + EncodeFields(m.unknown)
  {
    hide EncodeFields, EncodeVarint, Tagged, WithLength, Present;
    var f1, f2 := Present(1, m.requestid, n => Number(n)), Present(2, m.servicename, b => Chunk(b));
    var f3, f4 := Present(3, m.data, b => Chunk(b)), Present(4, m.endflag, n => Number(n));
    EncodeFieldsAppend(f1 + f2 + f3 + f4, m.unknown);
    EncodeFieldsAppend(f1 + f2 + f3, f4);
    EncodeFieldsAppend(f1 + f2, f3);
    EncodeFieldsAppend(f1, f2);
    PresentNumber(1, m.requestid);
    PresentChunk(2, m.servicename);
    PresentChunk(3, m.data);
    PresentNumber(4, m.endflag);
  }

  lemma InfoBytes(m: RspInfo)
    ensures EncodeFields(InfoFields(m))
         == Tagged(8, m.rspno, n => EncodeVarint(n)) + Tagged(18, m.rspdesc, b => WithLength(b))
            + EncodeFields(m.unknown)
  {
    hide EncodeFields, EncodeVarint, Tagged, WithLength, Present;
    var f1, f2 := Present(1, m.rspno, n => Number(n)), Present(2, m.rspdesc, b => Chunk(b));
    EncodeFieldsAppend(f1 + f2, m.unknown);
    EncodeFieldsAppend(f1, f2);
    PresentNumber(1, m.rspno);
    PresentChunk(2, m.rspdesc);
  }

  /** The embedded message stands behind tag 10 and its length. */
  lemma RspBytes(m: LoginRsp)
    ensures EncodeFields(RspFields(m))
         == Tagged(10, m.rspinfo, r => WithLength(EncodeFields(InfoFields(r)))) + EncodeFields(m.unknown)
  {
    hide EncodeFields, EncodeField, EncodeVarint, InfoFields;
    var f1 := Present(1, m.rspinfo, r => Chunk(EncodeFields(InfoFields(r))));
    EncodeFieldsAppend(f1, m.unknown);
    if m.rspinfo.Some? {
      var b := EncodeFields(InfoFields(m.rspinfo.value));
      OneField(Field(1, Chunk(b)));
      FieldBytes(1, 0, b);
    } else {
      NoFields();
    }
  }

  function TaggedVarints(ns: seq<nat>): bytes {
    if ns == [] then [] else [8] + EncodeVarint(ns[0]) + TaggedVarints(ns[1..])
  }

  lemma {:induction false} NumbersBytes(ns: seq<nat>)
    ensures EncodeFields(Numbers(ns)) == TaggedVarints(ns)
  {
    hide EncodeField, EncodeVarint;
    if ns == [] {
    } else {
      FieldBytes(1, ns[0], []);
      assert Numbers(ns)[1..] == Numbers(ns[1..]);
      NumbersBytes(ns[1..]);
    }
  }

  /** Every service number has its own tag 8. */
  lemma ReqBytes(m: LoginReq)
    ensures EncodeFields(ReqFields(m)) == TaggedVarints(m.serviceno) + EncodeFields(m.unknown)
  {
    EncodeFieldsAppend(Numbers(m.serviceno), m.unknown);
    NumbersBytes(m.serviceno);
  }

  // ---------- Which occurrence counts ----------

  predicate Is(f: Field, number: nat, wireType: nat) {
    f.number == number && WireType(f.payload) == wireType
  }

  predicate Missing(fs: seq<Field>, number: nat, wireType: nat) {
    forall j :: 0 <= j < |fs| ==> !Is(fs[j], number, wireType)
  }

  function Parsed<M>(fs: seq<Field>, empty: M, apply: (M, Field) -> Option<M>): Result<M> {
    Loop(EncodeFields(fs), empty, apply)
  }

  /** Fields that are none of those listed, as pairs of number and wire type, in their order. */
  function Others(fs: seq<Field>, known: seq<(nat, nat)>): seq<Field> {
    if fs == [] then []
    else (if (fs[0].number, WireType(fs[0].payload)) in known then [] else [fs[0]]) + Others(fs[1..], known)
  }

  const HEAD_KINDS := [(1, 0), (2, 2), (3, 2), (4, 0)]

  lemma HeadStep(m: BusHead, f: Field)
    ensures var r := ApplyHead(m, f).value;
            && r.requestid == (if Is(f, 1, 0) then Some(f.payload.n) else m.requestid)
            && r.servicename == (if Is(f, 2, 2) then Some(f.payload.b) else m.servicename)
            && r.data == (if Is(f, 3, 2) then Some(f.payload.b) else m.data)
            && r.endflag == (if Is(f, 4, 0) then Some(f.payload.n % 0x1_0000_0000) else m.endflag)
            && r.unknown == m.unknown + Others([f], HEAD_KINDS)
  {
    assert [f][1..] == [];
  }

  /** Fields of other kinds leave a field alone, and unknown ones are kept in order. */
  lemma {:induction false} HeadKeeps(m: BusHead, fs: seq<Field>)
    ensures ApplyAll(m, fs, ApplyHead).Some?
    ensures var r := ApplyAll(m, fs, ApplyHead).value;
            && (Missing(fs, 1, 0) ==> r.requestid == m.requestid)
            && (Missing(fs, 2, 2) ==> r.servicename == m.servicename)
            && (Missing(fs, 3, 2) ==> r.data == m.data)
            && (Missing(fs, 4, 0) ==> r.endflag == m.endflag)
            && r.unknown == m.unknown + Others(fs, HEAD_KINDS)
    decreases |fs|
  {
    hide ApplyHead;
    if fs == [] {
      assert m.unknown + [] == m.unknown;
    } else {
      HeadStep(m, fs[0]);
      HeadAlways(m, fs[0]);
      HeadKeeps(ApplyHead(m, fs[0]).value, fs[1..]);
      assert Others(fs, HEAD_KINDS) == Others([fs[0]], HEAD_KINDS) + Others(fs[1..], HEAD_KINDS) by {
        assert [fs[0]][1..] == [];
      }
    }
  }

  lemma HeadAlways(m: BusHead, f: Field)
    ensures ApplyHead(m, f).Some?
  {
  }

  /**
    Whatever valid fields are parsed, in whatever order: each field of the message holds what its last occurrence f says,
    is absent if there is none, and everything else is an unknown field.
   */
  lemma HeadLastWins(a: seq<Field>, f: Field, b: seq<Field>)
    requires forall k :: 0 <= k < |a + [f] + b| ==> ValidField((a + [f] + b)[k])
    ensures Complete(Parsed(a + [f] + b, EMPTY_HEAD, ApplyHead))
    ensures var r, all := Parsed(a + [f] + b, EMPTY_HEAD, ApplyHead).m, a + [f] + b;
            && (Is(f, 1, 0) && Missing(b, 1, 0) ==> r.requestid == Some(f.payload.n))
            && (Is(f, 2, 2) && Missing(b, 2, 2) ==> r.servicename == Some(f.payload.b))
            && (Is(f, 3, 2) && Missing(b, 3, 2) ==> r.data == Some(f.payload.b))
            && (Is(f, 4, 0) && Missing(b, 4, 0) ==> r.endflag == Some(f.payload.n % 0x1_0000_0000))
            && (Missing(all, 1, 0) ==> r.requestid == None) && (Missing(all, 2, 2) ==> r.servicename == None)
            && (Missing(all, 3, 2) ==> r.data == None) && (Missing(all, 4, 0) ==> r.endflag == None)
            && r.unknown == Others(all, HEAD_KINDS)
  {
    hide Loop, EncodeFields, Others, ApplyHead, ValidField, ApplyAll;
    var all := a + [f] + b;
    LoopOfFields(all, EMPTY_HEAD, ApplyHead);
    HeadKeeps(EMPTY_HEAD, all);
    ApplyAllAppend(EMPTY_HEAD, a + [f], b, ApplyHead);
    ApplyAllAppend(EMPTY_HEAD, a, [f], ApplyHead);
    HeadKeeps(EMPTY_HEAD, a);
    var m := ApplyAll(EMPTY_HEAD, a, ApplyHead).value;
    ApplyOne(m, f, ApplyHead);
    HeadStep(m, f);
    HeadAlways(m, f);
    HeadKeeps(ApplyHead(m, f).value, b);
  }

  const INFO_KINDS := [(1, 0), (2, 2)]

  lemma InfoStep(m: RspInfo, f: Field)
    ensures var r := ApplyInfo(m, f).value;
            && r.rspno == (if Is(f, 1, 0) then Some(f.payload.n % 0x1_0000_0000) else m.rspno)
            && r.rspdesc == (if Is(f, 2, 2) then Some(f.payload.b) else m.rspdesc)
            && r.unknown == m.unknown + Others([f], INFO_KINDS)
  {
    assert [f][1..] == [];
  }

  lemma InfoAlways(m: RspInfo, f: Field)
    ensures ApplyInfo(m, f).Some?
  {
  }

  lemma {:induction false} InfoKeeps(m: RspInfo, fs: seq<Field>)
    ensures ApplyAll(m, fs, ApplyInfo).Some?
    ensures var r := ApplyAll(m, fs, ApplyInfo).value;
            && (Missing(fs, 1, 0) ==> r.rspno == m.rspno)
            && (Missing(fs, 2, 2) ==> r.rspdesc == m.rspdesc)
            && r.unknown == m.unknown + Others(fs, INFO_KINDS)
    decreases |fs|
  {
    hide ApplyInfo;
    if fs == [] {
      assert m.unknown + [] == m.unknown;
    } else {
      InfoStep(m, fs[0]);
      InfoAlways(m, fs[0]);
      InfoKeeps(ApplyInfo(m, fs[0]).value, fs[1..]);
      assert Others(fs, INFO_KINDS) == Others([fs[0]], INFO_KINDS) + Others(fs[1..], INFO_KINDS) by {
        assert [fs[0]][1..] == [];
      }
    }
  }

  /** The same for RspInfo. */
  lemma InfoLastWins(a: seq<Field>, f: Field, b: seq<Field>)
    requires forall k :: 0 <= k < |a + [f] + b| ==> ValidField((a + [f] + b)[k])
    ensures Complete(Parsed(a + [f] + b, EMPTY_INFO, ApplyInfo))
    ensures var r, all := Parsed(a + [f] + b, EMPTY_INFO, ApplyInfo).m, a + [f] + b;
            && (Is(f, 1, 0) && Missing(b, 1, 0) ==> r.rspno == Some(f.payload.n % 0x1_0000_0000))
            && (Is(f, 2, 2) && Missing(b, 2, 2) ==> r.rspdesc == Some(f.payload.b))
            && (Missing(all, 1, 0) ==> r.rspno == None) && (Missing(all, 2, 2) ==> r.rspdesc == None)
            && r.unknown == Others(all, INFO_KINDS)
  {
    hide Loop, EncodeFields, Others, ApplyInfo, ValidField, ApplyAll;
    var all := a + [f] + b;
    LoopOfFields(all, EMPTY_INFO, ApplyInfo);
    InfoKeeps(EMPTY_INFO, all);
    ApplyAllAppend(EMPTY_INFO, a + [f], b, ApplyInfo);
    ApplyAllAppend(EMPTY_INFO, a, [f], ApplyInfo);
    InfoKeeps(EMPTY_INFO, a);
    var m := ApplyAll(EMPTY_INFO, a, ApplyInfo).value;
    ApplyOne(m, f, ApplyInfo);
    InfoStep(m, f);
    InfoAlways(m, f);
    InfoKeeps(ApplyInfo(m, f).value, b);
  }

  /** The bytes of all the embedded messages, one after the other. */
  function Embedded(fs: seq<Field>): bytes {
    if fs == [] then [] else (if Is(fs[0], 1, 2) then fs[0].payload.b else []) + Embedded(fs[1..])
  }

  predicate WholeInfo(b: bytes) {
    Complete(Loop(b, EMPTY_INFO, ApplyInfo))
  }

  /** Whether an embedded message is whole does not depend on what it is parsed onto. */
  lemma WholeOnAny(b: bytes, base: RspInfo)
    ensures Complete(Loop(b, base, ApplyInfo)) <==> WholeInfo(b)
  {
    hide Loop;
    InfoMerges();
    LoopMerges(b, base, EMPTY_INFO, MergeInfo, ApplyInfo);
    assert MergeInfo(base, EMPTY_INFO) == base;
  }

  lemma RspStep(m: LoginRsp, f: Field)
    ensures !Is(f, 1, 2) ==> ApplyRsp(m, f) == Some(m.(unknown := m.unknown + [f]))
    ensures Is(f, 1, 2) && !WholeInfo(f.payload.b) ==> ApplyRsp(m, f) == None
    ensures Is(f, 1, 2) && WholeInfo(f.payload.b) ==>
              var all := Loop(f.payload.b, InfoOf(m.rspinfo), ApplyInfo);
              all.Ended? && ApplyRsp(m, f) == Some(m.(rspinfo := Some(all.m)))
  {
    hide Loop, WholeInfo;
    if Is(f, 1, 2) {
      WholeOnAny(f.payload.b, InfoOf(m.rspinfo));
    }
  }

  lemma {:induction false} NoneEmbedded(fs: seq<Field>)
    requires Missing(fs, 1, 2)
    ensures Embedded(fs) == []
  {
    if fs == [] {
    } else {
      NoneEmbedded(fs[1..]);
    }
  }

  predicate AllWhole(fs: seq<Field>) {
    forall k :: 0 <= k < |fs| && Is(fs[k], 1, 2) ==> WholeInfo(fs[k].payload.b)
  }

  lemma {:induction false} RspKeeps(m: LoginRsp, fs: seq<Field>)
    ensures var r := ApplyAll(m, fs, ApplyRsp);
            && (r.Some? <==> AllWhole(fs))
            && (r.Some? ==>
                  && r.value.unknown == m.unknown + Others(fs, [(1, 2)])
                  && (if Missing(fs, 1, 2) then r.value.rspinfo == m.rspinfo
                      else var all := Loop(Embedded(fs), InfoOf(m.rspinfo), ApplyInfo);
                           Complete(all) && r.value.rspinfo == Some(all.m)))
    decreases |fs|
  {
    hide Loop, ApplyRsp, WholeInfo;
    if fs == [] {
      assert m.unknown + [] == m.unknown;
    } else {
      RspStep(m, fs[0]);
      if !Is(fs[0], 1, 2) {
        RspKeeps(m.(unknown := m.unknown + [fs[0]]), fs[1..]);
        assert m.unknown + ([fs[0]] + Others(fs[1..], [(1, 2)])) == m.unknown + [fs[0]] + Others(fs[1..], [(1, 2)]);
        assert [] + Embedded(fs[1..]) == Embedded(fs[1..]);
      } else if WholeInfo(fs[0].payload.b) {
        var b, base := fs[0].payload.b, InfoOf(m.rspinfo);
        RspKeeps(ApplyRsp(m, fs[0]).value, fs[1..]);
        WholeOnAny(b, base);
        LoopConcat(b, Embedded(fs[1..]), base, ApplyInfo);
        if Missing(fs[1..], 1, 2) {
          NoneEmbedded(fs[1..]);
          LoopAtEnd(Loop(b, base, ApplyInfo).m, ApplyInfo);
        }
      }
    }
  }

  /**
    Whatever valid fields are parsed as a LoginRsp: it succeeds exactly when every embedded RspInfo is whole, and then
    the embedded messages, however many, are parsed as one text of bytes.
   */
  lemma RspEmbedsAll(fs: seq<Field>)
    requires forall k :: 0 <= k < |fs| ==> ValidField(fs[k])
    ensures var r := Parsed(fs, EMPTY_RSP, ApplyRsp);
            && (Complete(r) <==> AllWhole(fs))
            && (Complete(r) ==>
                  && r.m.unknown == Others(fs, [(1, 2)])
                  && (Missing(fs, 1, 2) ==> r.m.rspinfo == None)
                  && (!Missing(fs, 1, 2) ==>
                        var all := Loop(Embedded(fs), EMPTY_INFO, ApplyInfo);
                        Complete(all) && r.m.rspinfo == Some(all.m)))
  {
    hide Loop, EncodeFields, Others, ApplyRsp, ValidField, ApplyAll, AllWhole;
    LoopOfFields(fs, EMPTY_RSP, ApplyRsp);
    RspKeeps(EMPTY_RSP, fs);
    assert [] + Others(fs, [(1, 2)]) == Others(fs, [(1, 2)]);
  }

  lemma {:induction false} VarintFits(n: nat, max: nat)
    requires max > 0 && n < Power128(max)
    ensures |EncodeVarint(n)| <= max
  {
    if n >= 128 {
      VarintFits(n / 128, max - 1);
    }
  }

  /** One service number, with its own tag or as a packed run. */
  function NumberField(n: nat, packed: bool): Field {
    Field(1, if packed then Chunk(EncodeVarint(n)) else Number(n))
  }

  lemma OneNumber(n: nat, packed: bool)
    requires n < 0x1_0000_0000_0000_0000
    ensures ValidField(NumberField(n, packed))
    ensures Parsed([NumberField(n, packed)], EMPTY_REQ, ApplyReq) == Ended(LoginReq([n % 0x1_0000_0000], []), [])
  {
    hide Loop, EncodeFields, EncodeVarint, ReadVarint, Power128;
    var f := NumberField(n, packed);
    TenGroups();
    VarintFits(n, 10);
    ReadUndoesEncode(n, []);
    assert EncodeVarint(n) + [] == EncodeVarint(n);
    LoopOfFields([f], EMPTY_REQ, ApplyReq);
    ApplyOne(EMPTY_REQ, f, ApplyReq);
    var low := n % 0x1_0000_0000;
    assert PackedValues([]) == Some([]) && [low] + [] == [low];
    assert [] + [low] == [low];
  }

  /** Each service number is appended in its lowest 32 bits, whichever way it is written. */
  lemma ReqInOrder(a: seq<Field>, n: nat, b: seq<Field>, packed: bool)
    requires n < 0x1_0000_0000_0000_0000
    requires Complete(Parsed(a, EMPTY_REQ, ApplyReq)) && Complete(Parsed(b, EMPTY_REQ, ApplyReq))
    ensures var x, y := Parsed(a, EMPTY_REQ, ApplyReq).m, Parsed(b, EMPTY_REQ, ApplyReq).m;
            var all := LoginReq(x.serviceno + [n % 0x1_0000_0000] + y.serviceno, x.unknown + y.unknown);
            Parsed(a + [NumberField(n, packed)] + b, EMPTY_REQ, ApplyReq) == Ended(all, [])
  {
    hide Loop, EncodeFields, EncodeField, NumberField;
    var f := NumberField(n, packed);
    var s := EncodeFields([f]);
    EncodeFieldsAppend(a + [f], b);
    EncodeFieldsAppend(a, [f]);
    OneNumber(n, packed);
    ReqConcatIsMerge(EncodeFields(a), s);
    ReqConcatIsMerge(EncodeFields(a) + s, EncodeFields(b));
    var x := Parsed(a, EMPTY_REQ, ApplyReq).m;
    assert x.unknown + [] == x.unknown;
  }

  lemma ApplyOne<M>(m: M, f: Field, apply: (M, Field) -> Option<M>)
    ensures ApplyAll(m, [f], apply) == apply(m, f)
  {
    assert [f][1..] == [];
  }

  // ---------- A cut is noticed ----------

  lemma RestBehind(s: bytes, more: bytes)
    requires ReadField(s).Got? && more != []
    ensures ReadField(s + more).Got? && ReadField(s + more).rest != []
  {
    hide ReadField;
    ReadFieldExtends(s, more);
  }

  /** A field that lacks its last bytes is not read. */
  lemma CutField(f: Field, k: nat)
    requires ValidField(f) && k < |EncodeField(f)|
    ensures !ReadField(EncodeField(f)[..k]).Got?
  {
    hide ReadField, EncodeField;
    var s, more := EncodeField(f)[..k], EncodeField(f)[k..];
    assert s + more == EncodeField(f) == EncodeField(f) + [];
    ReadFieldOf(f, []);
    if ReadField(s).Got? {
      RestBehind(s, more);
    }
  }

  /** Whole fields and a part of another one are never a complete message, whatever the type. */
  lemma {:induction false} CutIsNoticed<M>(fs: seq<Field>, f: Field, k: nat, m: M, apply: (M, Field) -> Option<M>)
    requires forall i :: 0 <= i < |fs| ==> ValidField(fs[i])
    requires ValidField(f) && 0 < k < |EncodeField(f)|
    ensures !Complete(Loop(EncodeFields(fs) + EncodeField(f)[..k], m, apply))
    decreases |fs|
  {
    hide ReadField, EncodeField, ValidField;
    var cut := EncodeField(f)[..k];
    if fs == [] {
      CutField(f, k);
      assert [] + cut == cut;
    } else {
      ReadFieldOf(fs[0], EncodeFields(fs[1..]) + cut);
      assert EncodeFields(fs) + cut == EncodeField(fs[0]) + (EncodeFields(fs[1..]) + cut);
      match apply(m, fs[0])
      case None =>
      case Some(m') => CutIsNoticed(fs[1..], f, k, m', apply);
    }
  }
}
