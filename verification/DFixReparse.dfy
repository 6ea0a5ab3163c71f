/** The DFix writer and the reader as they run, one after the other. */
module DFixReparse {
  import opened Bytes
  import opened DFixSpec
  import opened DFixStream

  /**
    Flush, Parse of the stream, GetValue of a tag: the type and the bytes of the first field added under the tag,
    the decimal body length under L, and nothing under any other tag.
   */
  method FlushThenGet(w: WriteStream, tag: bytes) returns (ok: bool, found: bool, kind: ValueType, data: bytes)
    requires w.Valid() && w.cur - MAXHEADERLEN < 1_000_000_000
    requires forall k :: 0 <= k < |w.fields| ==> Readable(w.fields[k])
    modifies w, w.ptr
    ensures w.fields == old(w.fields)
    ensures ok <==> |EncodeAll(w.fields)| < 100_000_000
    ensures ok ==> var all := [Header(|EncodeAll(w.fields)|)] + w.fields;
                   var k := First(all, tag);
                   && (found <==> k >= 0)
                   && (found ==> kind == KindOf(all[k]) && data == all[k].data)
  {
    hide EncodeAll, Encode, Decimal, First;
    found, kind, data := false, TEXT, [];
    BodyLength(w);
    ok := w.Flush();
    if ok {
      var s := w.GetStream();
      StreamReadsBack(w.fields);
      var reader := new ReadStream(s);
      var o := reader.Parse();
      var v;
      found, v := reader.GetValue(tag);
      kind := v.kind;
      if found {
        ghost var all := [Header(|EncodeAll(w.fields)|)] + w.fields;
        StandsSlice(s, v.buf, all[First(all, tag)].data);
        data := s[v.buf..v.buf + v.buflen];
      }
    }
  }

  lemma BodyLength(w: WriteStream)
    requires w.Valid()
    ensures |EncodeAll(w.fields)| == w.cur - MAXHEADERLEN
  {
    assert |w.ptr[MAXHEADERLEN..w.cur]| == w.cur - MAXHEADERLEN;
  }
}
