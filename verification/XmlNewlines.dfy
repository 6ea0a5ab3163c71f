/** The newline pass of LoadFile over its buffer, and the end-of-line handling of section 2.11 of XML 1.0. */
module XmlNewlines {
  import opened Concat
  import opened XmlLex

  const CR := '\r'
  const LF := '\n'

  /** Both the two characters CR LF and a CR that no LF follows become one LF. */
  function Normalize(s: string): (r: string)
    ensures |r| <= |s|
  {
    if s == "" then ""
    else if s[0] == CR then [LF] + Normalize(s[if |s| > 1 && s[1] == LF then 2 else 1..])
    else [s[0]] + Normalize(s[1..])
  }

  /** A character of the text that stands for itself or for a line break, and is not the second half of one. */
  predicate Kept(s: string, i: nat)
    requires i < |s|
  {
    !(s[i] == LF && i > 0 && s[i - 1] == CR)
  }

  function Translated(c: char): char {
    if c == CR then LF else c
  }

  /** The same, said position by position: halves of CR LF are dropped, the other characters translated. */
  function KeptFrom(s: string, i: nat): string
    requires i <= |s|
    decreases |s| - i
  {
    if i == |s| then ""
    else (if Kept(s, i) then [Translated(s[i])] else "") + KeptFrom(s, i + 1)
  }

  lemma {:induction false} NormalizeByPosition(s: string, i: nat)
    requires i <= |s| && (i < |s| ==> Kept(s, i))
    ensures Normalize(s[i..]) == KeptFrom(s, i)
    decreases |s| - i
  {
    if i < |s| {
      var pair := s[i] == CR && i + 1 < |s| && s[i + 1] == LF;
      NormalizeByPosition(s, if pair then i + 2 else i + 1);
      if pair {
        assert KeptFrom(s, i + 1) == KeptFrom(s, i + 2);
      }
    }
  }

  /** The pass is the translation of the standard. */
  lemma NormalizeIsTranslation(s: string)
    ensures Normalize(s) == KeptFrom(s, 0)
  {
    NormalizeByPosition(s, 0);
    assert s[0..] == s;
  }

  lemma {:induction false} NoCarriageReturn(s: string)
    ensures CR !in Normalize(s)
    ensures '\0' !in s ==> '\0' !in Normalize(s)
  {
    if s != "" {
      NoCarriageReturn(s[if s[0] == CR && |s| > 1 && s[1] == LF then 2 else 1..]);
    }
  }

  lemma {:induction false} UnchangedWithoutCarriageReturn(s: string)
    ensures Normalize(s) == s <==> CR !in s
  {
    NoCarriageReturn(s);
    if s == "" || s[0] == CR {
    } else {
      UnchangedWithoutCarriageReturn(s[1..]);
      assert s == [s[0]] + s[1..];
    }
  }

  lemma Idempotent(s: string)
    ensures Normalize(Normalize(s)) == Normalize(s)
  {
    NoCarriageReturn(s);
    UnchangedWithoutCarriageReturn(Normalize(s));
  }

  /**
    The two-pointer pass. The text is what stands in front of the first terminator; it is normalized at the
    front of the buffer, terminated, and what the write head never reached is as before.
   */
  method NormalizeInPlace(buf: array<char>, length: nat)
    requires buf.Length == length + 1
    modifies buf
    ensures var n := Normalize(CStr(old(buf[..length])));
            && |n| <= length && buf[..|n|] == n && buf[|n|] == '\0'
            && forall k :: |n| < k < length ==> buf[k] == old(buf[k])
  {
    hide CStr, Normalize;
    ghost var whole := buf[..length];
    ghost var text := CStr(whole);
    TextOf(whole);
    buf[length] := '\0';
    var p, q := 0, 0;
    assert text[0..] == text && buf[..0] + Normalize(text) == Normalize(text);
    while buf[p] != '\0'
      invariant q <= p <= |text|
      invariant forall k :: q <= k < length ==> buf[k] == whole[k]
      invariant buf[length] == '\0'
      invariant buf[..q] + Normalize(text[p..]) == Normalize(text)
      decreases length - p
    {
      assert buf[p..|text|] == text[p..];
      ghost var done, p0 := buf[..q], p;
      p, q := CopyOne(buf, length, p, q, text);
      assert buf[..q] == done + [buf[q - 1]];
      Regroup(done, [buf[q - 1]], Normalize(text[p..]));
    }
    assert text[p..] == "" && Normalize("") == "" by {
      NormalizeNothing();
    }
    buf[q] := '\0';
  }

  lemma NormalizeNothing()
    ensures Normalize("") == ""
  {
  }

  /** The text in front of the first terminator. */
  lemma TextOf(whole: string)
    ensures var text := CStr(whole);
            && |text| <= |whole| && text == whole[..|text|]
            && (forall k :: 0 <= k < |text| ==> whole[k] != '\0')
            && (|text| < |whole| ==> whole[|text|] == '\0')
  {
    var n := Find(whole, '\0');
    assert forall k :: 0 <= k < n ==> whole[..n][k] == whole[k];
  }

  /** One turn of the loop. */
  method CopyOne(buf: array<char>, length: nat, p0: nat, q0: nat, ghost text: string) returns (p: nat, q: nat)
    requires buf.Length == length + 1 && q0 <= p0 < |text| <= length
    requires buf[p0..|text|] == text[p0..] && buf[|text|] == '\0' && buf[p0] != '\0'
    modifies buf
    ensures p0 < p <= |text| && q <= p && q == q0 + 1
    ensures buf[..q0] == old(buf[..q0])
    ensures [buf[q0]] + Normalize(text[p..]) == Normalize(text[p0..])
    ensures forall k :: q <= k <= length ==> buf[k] == old(buf[k])
  {
    p, q := p0, q0;
    ghost var rest := text[p0..];
    assert rest[0] == buf[p0];
    if buf[p] == CR {
      buf[q] := LF;
      q := q + 1;
      p := p + 1;
      if buf[p] == LF {
        p := p + 1;
      }
    } else {
      buf[q] := buf[p];
      q := q + 1;
      p := p + 1;
    }
  }
}
