/** The DFix streams as they run: a writer that fills the caller's buffer in place, and the scanning reader. */
module DFixStream {
  import opened Bytes
  import opened DFixSpec

  // ---------- The reader ----------

  class ReadStream {
    const data: bytes
    var m: Values

    constructor (s: bytes)
      ensures data == s && m == map[]
    {
      data, m := s, map[];
    }

    method GetValue(tag: bytes) returns (found: bool, v: Value)
      ensures found <==> tag in m
      ensures found ==> v == m[tag]
    {
      if tag in m {
        return true, m[tag];
      }
      return false, Value(0, 0, TEXT);
    }

    /** The scan: cur looks for '=' from tagbegin on, then for SOH. */
    method Parse() returns (o: Outcome)
      modifies this`m
      ensures (o, m) == ParseFields(data, 0, map[], -1)
    {
      m := map[];
      var cur, tagbegin, bound := 0, 0, -1;
      while cur < |data|
        invariant 0 <= tagbegin <= cur <= |data|
        invariant Find(data, tagbegin, EQUALS) == Find(data, cur, EQUALS)
        invariant ParseFields(data, tagbegin, m, bound) == ParseFields(data, 0, map[], -1)
      {
        if data[cur] != EQUALS {
          cur := cur + 1;
        } else {
          var tag, next := data[tagbegin..cur], -1;
          if tag == [] || tag[0] != RAW_MARK {
            next, bound := ParseText(tag, cur);
            if next < 0 {
              return Accepted;
            }
          } else {
            o, next, bound := ParseRaw(tag[1..], cur, bound);
            if next < 0 {
              return;
            }
          }
          cur, tagbegin := next, next;
        }
      }
      return Accepted;
    }

    /** A text field whose '=' is at tagend; next is where the following field starts, or -1 at the end. */
    method ParseText(tag: bytes, tagend: nat) returns (next: int, bound: int)
      requires tagend < |data|
      modifies this`m
      ensures match ParseTextField(data, tag, tagend, old(m))
              case Next(at, m', b) => next == at && m == m' && bound == b
              case Done(o, m') => next == -1 && m == m' && o == Accepted
    {
      var databegin := tagend + 1;
      var cur := databegin;
      while cur < |data|
        invariant databegin <= cur <= |data|
        invariant Find(data, databegin, SOH) == Find(data, cur, SOH)
      {
        if data[cur] == SOH {
          m := Insert(m, tag, Value(databegin, cur - databegin, TEXT));
          return cur + 1, cur - databegin;
        }
        cur := cur + 1;
      }
      return -1, -1;
    }

    method ParseRaw(tag: bytes, tagend: nat, last: int) returns (o: Outcome, next: int, bound: int)
      requires tagend < |data| && data[tagend] == EQUALS
      modifies this`m
      ensures match ParseRawField(data, tag, tagend, old(m), last)
              case Next(at, m', b) => next == at && m == m' && bound == b
              case Done(o', m') => next == -1 && m == m' && o == o'
    {
      o, next, bound := OutOfBounds, -1, last;
      var cur := tagend;
      while cur < |data| && data[cur] != SOH
        invariant tagend <= cur <= |data|
        invariant Find(data, tagend, SOH) == Find(data, cur, SOH)
      {
        cur := cur + 1;
      }
      if cur == |data| {
        return if bound >= 9 then Rejected else OutOfBounds, -1, bound;
      }
      var lenstr := data[tagend + 1..cur];
      bound := |lenstr|;
      if bound >= 9 {
        return Rejected, -1, bound;
      }
      var rawdatalen := Atoi(lenstr);
      var same := CompareTag(tag, cur + 1);
      if same != Same {
        return if same == Overrun then OutOfBounds else Rejected, -1, bound;
      }
      o, next := ParseData(tag, cur + 1 + |tag|, rawdatalen);
    }

    method CompareTag(tag: bytes, at: nat) returns (c: Compared)
      requires at <= |data|
      ensures c == Compare(tag, data, at)
    {
      var i := 0;
      while i < |tag|
        invariant 0 <= i <= |tag| && at + i <= |data|
        invariant Compare(tag[i..], data, at + i) == Compare(tag, data, at)
      {
        if at + i == |data| {
          return Overrun;
        } else if tag[i] != data[at + i] {
          return Different;
        } else if tag[i] == 0 {
          return Same;
        }
        i := i + 1;
      }
      return Same;
    }

    /** The data behind the repeated tag: the '=' is expected at eq. */
    method ParseData(tag: bytes, eq: nat, rawlen: int) returns (o: Outcome, next: int)
      requires eq >= |tag| && eq - |tag| <= |data| && Compare(tag, data, eq - |tag|) == Same
      modifies this`m
      ensures match ParseRawData(data, tag, eq - |tag|, rawlen, old(m), 0)
              case Next(at, m', _) => next == at && m == m'
              case Done(o', m') => next == -1 && m == m' && o == o'
    {
      if eq >= |data| {
        return OutOfBounds, -1;
      }
      if data[eq] != EQUALS {
        return Rejected, -1;
      }
      if rawlen < 0 {
        return SteppedBack, -1;
      }
      var cur := eq + 1;
      m := Insert(m, tag, Value(cur, rawlen, RAW));
      cur := cur + rawlen;
      if cur >= |data| {
        return OutOfBounds, -1;
      }
      if data[cur] != SOH {
        return Rejected, -1;
      }
      return Accepted, cur + 1;
    }
  }

  // ---------- The writer ----------

  lemma JoinSlices(s: bytes, from: nat, mid: nat, to: nat)
    requires from <= mid <= to <= |s|
    ensures s[from..to] == s[from..mid] + s[mid..to] && s[mid..to] == s[mid..][..to - mid]
  {
  }

  lemma RawHeadBehind(b: bytes, tag: bytes, lenstr: bytes)
    ensures b + [RAW_MARK] + tag + [EQUALS] + lenstr + [SOH] == b + ([RAW_MARK] + tag + [EQUALS] + lenstr + [SOH])
  {
  }

  class WriteStream {
    const ptr: array<byte>
    var cur: nat
    var hdrbegin: int // -1 while there is no header
    ghost var fields: seq<Field> // what has been added since the last Clear

    /** The body fills the buffer from MAXHEADERLEN on, behind a gap for the header. */
    ghost predicate Valid()
      reads this, ptr
    {
      && ptr.Length >= 32
      && MAXHEADERLEN <= cur <= ptr.Length
      && ptr[MAXHEADERLEN..cur] == EncodeAll(fields)
      && -1 <= hdrbegin <= MAXHEADERLEN
    }

    constructor (buffer: array<byte>)
      requires buffer.Length >= 32
      ensures Valid() && ptr == buffer && fields == [] && hdrbegin == -1
    {
      ptr, cur, hdrbegin, fields := buffer, MAXHEADERLEN, -1, [];
    }

    /** memcpy to position at. */
    method Copy(at: nat, part: bytes)
      requires at + |part| <= ptr.Length
      modifies ptr
      ensures forall k :: 0 <= k < ptr.Length ==> ptr[k] == if at <= k < at + |part| then part[k - at] else old(ptr[k])
    {
      var i := 0;
      while i < |part|
        invariant 0 <= i <= |part|
        invariant forall k :: 0 <= k < ptr.Length ==> ptr[k] == if at <= k < at + i then part[k - at] else old(ptr[k])
      {
        ptr[at + i] := part[i];
        i := i + 1;
      }
    }

    ghost function Body(): bytes
      requires MAXHEADERLEN <= cur <= ptr.Length
      reads this`cur, ptr
    {
      ptr[MAXHEADERLEN..cur]
    }

    /** memcpy to the cursor, which moves behind the copy. */
    method Put(part: bytes)
      requires MAXHEADERLEN <= cur && cur + |part| <= ptr.Length
      modifies ptr, this`cur
      ensures cur == old(cur) + |part| && Body() == old(Body()) + part
    {
      Copy(cur, part);
      cur := cur + |part|;
    }

    method AddText(tag: bytes, data: bytes) returns (ok: bool)
      requires Valid()
      modifies this, ptr
      ensures Valid() && hdrbegin == old(hdrbegin)
      ensures ok <==> old(cur) + |tag| + |data| + 2 <= ptr.Length
      ensures fields == if ok then old(fields) + [TextField(tag, data)] else old(fields)
    {
      hide EncodeAll, Encode;
      if cur + |tag| + 1 + |data| + 1 > ptr.Length {
        return false;
      }
      Put(tag);
      Put([EQUALS]);
      Put(data);
      Put([SOH]);
      TextAppended(old(Body()), tag, data);
      EncodeAllAppend(fields, TextField(tag, data));
      fields := fields + [TextField(tag, data)];
      return true;
    }

    /** The length text goes through a buffer of ten characters. */
    method AddRaw(tag: bytes, data: bytes) returns (ok: bool)
      requires Valid() && |data| < 1_000_000_000
      modifies this, ptr
      ensures Valid() && hdrbegin == old(hdrbegin)
      ensures ok <==> old(cur) + 2 * |tag| + |Decimal(|data|)| + |data| + 5 <= ptr.Length
      ensures fields == if ok then old(fields) + [RawField(tag, data)] else old(fields)
    {
      hide EncodeAll, Encode, Decimal;
      var lenstr := Decimal(|data|);
      if cur + 1 + |tag| + 1 + |lenstr| + 1 + |tag| + 1 + |data| + 1 > ptr.Length {
        return false;
      }
      PutRawHead(tag, lenstr);
      Put(tag);
      Put([EQUALS]);
      Put(data);
      Put([SOH]);
      RawAppended(old(Body()), tag, data);
      EncodeAllAppend(fields, RawField(tag, data));
      fields := fields + [RawField(tag, data)];
      return true;
    }

    method PutRawHead(tag: bytes, lenstr: bytes)
      requires MAXHEADERLEN <= cur && cur + |tag| + |lenstr| + 3 <= ptr.Length
      modifies ptr, this`cur
      ensures cur == old(cur) + |tag| + |lenstr| + 3
      ensures Body() == old(Body()) + ([RAW_MARK] + tag + [EQUALS] + lenstr + [SOH])
    {
      Put([RAW_MARK]);
      Put(tag);
      Put([EQUALS]);
      Put(lenstr);
      Put([SOH]);
      ghost var b := old(Body());
      RawHeadBehind(b, tag, lenstr);
    }

    /** Write the header backwards from the body into the gap. */
    method Flush() returns (ok: bool)
      requires Valid() && cur - MAXHEADERLEN < 1_000_000_000
      modifies this`hdrbegin, ptr
      ensures Valid()
      ensures ok <==> cur - MAXHEADERLEN < 100_000_000
      ensures !ok ==> hdrbegin == old(hdrbegin)
      ensures ok ==> hdrbegin >= 0 && ptr[hdrbegin..cur] == Stream(fields)
    {
      hide EncodeAll, Decimal;
      ghost var rest := ptr[MAXHEADERLEN..];
      assert rest[..cur - MAXHEADERLEN] == ptr[MAXHEADERLEN..cur];
      var n := cur - MAXHEADERLEN;
      var lenstr := Decimal(n);
      DecimalLength(n, 8);
      Pow10Eight();
      if |lenstr| > MAXHEADERLEN - 3 {
        return false;
      }
      hdrbegin := MAXHEADERLEN - 3 - |lenstr|;
      WriteHeader(hdrbegin, lenstr);
      JoinSlices(ptr[..], hdrbegin, MAXHEADERLEN, cur);
      return true;
    }

    method WriteHeader(hdrcur: nat, lenstr: bytes)
      requires hdrcur + |lenstr| + 3 == MAXHEADERLEN <= ptr.Length
      modifies ptr
      ensures ptr[hdrcur..MAXHEADERLEN] == [76, EQUALS] + lenstr + [SOH]
      ensures ptr[MAXHEADERLEN..] == old(ptr[MAXHEADERLEN..])
    {
      Copy(hdrcur, [76, EQUALS]);
      Copy(hdrcur + 2, lenstr);
      Copy(hdrcur + 2 + |lenstr|, [SOH]);
    }

    method Clear()
      requires Valid()
      modifies this
      ensures Valid() && fields == [] && hdrbegin == -1
    {
      cur, hdrbegin, fields := MAXHEADERLEN, -1, [];
    }

    /** GetData and GetSize together: the bytes to send, once there is a header. */
    method GetStream() returns (s: bytes)
      requires Valid() && hdrbegin >= 0
      ensures s == ptr[hdrbegin..cur]
    {
      s := ptr[hdrbegin..cur];
    }
  }

  lemma TextAppended(b: bytes, tag: bytes, data: bytes)
    ensures b + tag + [EQUALS] + data + [SOH] == b + Encode(TextField(tag, data))
  {
  }

  lemma RawAppended(b: bytes, tag: bytes, data: bytes)
    ensures b + ([RAW_MARK] + tag + [EQUALS] + Decimal(|data|) + [SOH]) + tag + [EQUALS] + data + [SOH]
         == b + Encode(RawField(tag, data))
  {
    var head := [RAW_MARK] + tag + [EQUALS] + Decimal(|data|) + [SOH];
    AppendFour(b, head, tag, [EQUALS], data, [SOH]);
  }

  lemma AppendFour(b: bytes, h: bytes, c: bytes, d: bytes, e: bytes, f: bytes)
    ensures b + h + c + d + e + f == b + (h + c + d + e + f)
  {
    assert b + h + c == b + (h + c);
    assert b + (h + c) + d == b + (h + c + d);
    assert b + (h + c + d) + e == b + (h + c + d + e);
    assert b + (h + c + d + e) + f == b + (h + c + d + e + f);
  }
}
