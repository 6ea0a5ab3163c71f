/**
  Numeric references in UTF-8 mode: the digits read from the right, the conversion of the number to bytes,
  and the patterns of section 3 of RFC 3629.
 */
module XmlUtf8 {
  import opened XmlLex
  import XmlTextRoundTrip

  // ---------- The patterns of RFC 3629 ----------

  /** How many bytes the number takes; none from 0x200000 on. */
  function Utf8Length(n: bv64): (k: nat)
    ensures k <= 4
  {
    if n < 0x80 then 1 else if n < 0x800 then 2 else if n < 0x1_0000 then 3 else if n < 0x20_0000 then 4 else 0
  }

  function DropSix(n: bv64): bv64 {
    n >> 6
  }

  /** n without its lowest groups of six bits. */
  function Above(n: bv64, groups: nat): bv64 {
    if groups == 0 then n else DropSix(Above(n, groups - 1))
  }

  function Low8(n: bv64): bv8 {
    (n & 0xFF) as bv8
  }

  /** A continuation byte: 10xxxxxx. */
  function Tail(n: bv64): bv8 {
    0x80 | (Low8(n) & 0x3F)
  }

  /** A lead byte: 0xxxxxxx, 110xxxxx, 1110xxxx or 11110xxx. */
  function Lead(n: bv64, length: nat): bv8 {
    match length
    case 2 => 0xC0 | Low8(n)
    case 3 => 0xE0 | Low8(n)
    case 4 => 0xF0 | Low8(n)
    case _ => Low8(n)
  }

  function Utf8(n: bv64): (r: seq<bv8>)
    ensures |r| == Utf8Length(n)
  {
    match Utf8Length(n)
    case 1 => [Lead(n, 1)]
    case 2 => [Lead(Above(n, 1), 2), Tail(n)]
    case 3 => [Lead(Above(n, 2), 3), Tail(Above(n, 1)), Tail(n)]
    case 4 => [Lead(Above(n, 3), 4), Tail(Above(n, 2)), Tail(Above(n, 1)), Tail(n)]
    case _ => []
  }

  /** How many bytes a lead byte announces by its leading ones; 0 for a byte that leads nothing. */
  function Announced(lead: bv8): nat {
    if lead & 0x80 == 0 then 1
    else if lead & 0xE0 == 0xC0 then 2
    else if lead & 0xF0 == 0xE0 then 3
    else if lead & 0xF8 == 0xF0 then 4
    else 0
  }

  predicate IsTail(b: bv8) {
    b & 0xC0 == 0x80
  }

  function Bits(b: bv8, mask: bv8): bv64 {
    (b & mask) as bv64
  }

  function Join(high: bv64, low: bv64): bv64 {
    (high << 6) | low
  }

  datatype Decoded = Malformed | Decoded(n: bv64)

  /** The number a byte sequence stands for, if it has one of the four patterns. */
  function Decode(r: seq<bv8>): Decoded {
    if r == [] || Announced(r[0]) != |r| || !AllTails(r[1..]) then Malformed
    else Decoded(JoinAll(Bits(r[0], LeadMask(|r|)), r[1..]))
  }

  function LeadMask(length: nat): bv8 {
    match length
    case 1 => 0x7F
    case 2 => 0x1F
    case 3 => 0x0F
    case _ => 0x07
  }

  predicate AllTails(r: seq<bv8>) {
    r == [] || (IsTail(r[0]) && AllTails(r[1..]))
  }

  function JoinAll(high: bv64, tails: seq<bv8>): bv64
    decreases |tails|
  {
    if tails == [] then high else JoinAll(Join(high, Bits(tails[0], 0x3F)), tails[1..])
  }

  // ---------- Decoding undoes encoding ----------

  /** A continuation byte gives its six bits back to what stands above them. */
  lemma TailGivesBack(n: bv64)
    ensures IsTail(Tail(n)) && Join(DropSix(n), Bits(Tail(n), 0x3F)) == n
  {
  }

  lemma AboveStep(n: bv64, groups: nat)
    ensures Above(n, 0) == n && Above(n, groups + 1) == DropSix(Above(n, groups))
  {
  }

  lemma ShortLead(n: bv64)
    ensures n < 0x80 ==> Announced(Lead(n, 1)) == 1 && Bits(Lead(n, 1), 0x7F) == n && ByteTable(Lead(n, 1)) == 1
    ensures n < 0x20 ==> Announced(Lead(n, 2)) == 2 && Bits(Lead(n, 2), 0x1F) == n
    ensures 0x2 <= n < 0x20 ==> ByteTable(Lead(n, 2)) == 2
  {
  }

  lemma LongLead(n: bv64)
    ensures n < 0x10 ==> Announced(Lead(n, 3)) == 3 && Bits(Lead(n, 3), 0x0F) == n && ByteTable(Lead(n, 3)) == 3
    ensures n < 0x08 ==> Announced(Lead(n, 4)) == 4 && Bits(Lead(n, 4), 0x07) == n
    ensures n < 0x08 ==> (ByteTable(Lead(n, 4)) == 4 <==> n < 0x05)
  {
  }

  /** The bits of the lead byte, by the length the number needs. */
  lemma TopOfShort(n: bv64)
    ensures Utf8Length(n) == 1 ==> n < 0x80
    ensures Utf8Length(n) == 2 ==> 0x2 <= Above(n, 1) < 0x20
  {
    assert DropSix(n) == n >> 6;
    AboveStep(n, 0);
  }

  lemma TopOfThree(n: bv64)
    ensures Utf8Length(n) == 3 ==> Above(n, 2) < 0x10
  {
    AboveStep(n, 0);
    AboveStep(n, 1);
  }

  lemma ThreeDrops(n: bv64)
    ensures n < 0x20_0000 ==> DropSix(DropSix(DropSix(n))) < 0x08
    ensures n < 0x20_0000 ==> (DropSix(DropSix(DropSix(n))) < 0x05 <==> n < 0x14_0000)
  {
  }

  lemma TopOfFour(n: bv64)
    ensures Utf8Length(n) == 4 ==> Above(n, 3) < 0x08
    ensures Utf8Length(n) == 4 ==> (Above(n, 3) < 0x05 <==> n < 0x14_0000)
  {
    hide Above, DropSix;
    AboveStep(n, 0);
    AboveStep(n, 1);
    AboveStep(n, 2);
    ThreeDrops(n);
  }

  /** The lead byte announces the length and holds the top bits; the table knows it below 0x140000. */
  lemma LeadIsRight(n: bv64)
    ensures var k := Utf8Length(n);
            k > 0 ==>
              var top := Above(n, k - 1);
              && Announced(Lead(top, k)) == k && Bits(Lead(top, k), LeadMask(k)) == top
              && (ByteTable(Lead(top, k)) == k <==> n < 0x14_0000)
  {
    hide Above, Lead, Bits, Announced, ByteTable;
    AboveStep(n, 0);
    TopOfShort(n);
    TopOfThree(n);
    TopOfFour(n);
    ShortLead(n);
    ShortLead(Above(n, 1));
    LongLead(Above(n, 2));
    LongLead(Above(n, 3));
  }

  lemma JoinTwo(high: bv64, a: bv8)
    ensures JoinAll(high, [a]) == Join(high, Bits(a, 0x3F)) && (AllTails([a]) <==> IsTail(a))
  {
    assert [a][1..] == [];
  }

  lemma JoinThree(high: bv64, a: bv8, b: bv8)
    ensures JoinAll(high, [a, b]) == Join(Join(high, Bits(a, 0x3F)), Bits(b, 0x3F))
    ensures AllTails([a, b]) <==> IsTail(a) && IsTail(b)
  {
    hide Join, Bits, IsTail;
    assert [a, b][1..] == [b];
    JoinTwo(Join(high, Bits(a, 0x3F)), b);
  }

  lemma JoinFour(high: bv64, a: bv8, b: bv8, c: bv8)
    ensures JoinAll(high, [a, b, c]) == Join(Join(Join(high, Bits(a, 0x3F)), Bits(b, 0x3F)), Bits(c, 0x3F))
    ensures AllTails([a, b, c]) <==> IsTail(a) && IsTail(b) && IsTail(c)
  {
    hide Join, Bits, IsTail;
    assert [a, b, c][1..] == [b, c];
    JoinThree(Join(high, Bits(a, 0x3F)), b, c);
  }

  /** Decoding the bytes of a number gives the number. */
  lemma DecodeUndoesUtf8(n: bv64)
    requires Utf8Length(n) > 0
    ensures Decode(Utf8(n)) == Decoded(n)
  {
    hide Utf8Length, DropSix, Above, Tail, Lead, IsTail, Bits, Announced, Join, JoinAll, AllTails, LeadMask;
    AboveStep(n, 0);
    AboveStep(n, 1);
    AboveStep(n, 2);
    TailGivesBack(n);
    TailGivesBack(Above(n, 1));
    TailGivesBack(Above(n, 2));
    LeadIsRight(n);
    var a, b, c := Tail(Above(n, 2)), Tail(Above(n, 1)), Tail(n);
    match Utf8Length(n)
    case 1 =>
      assert Utf8(n)[1..] == [];
      NoTails(n);
    case 2 =>
      assert Utf8(n)[1..] == [c];
      JoinTwo(Above(n, 1), c);
    case 3 =>
      assert Utf8(n)[1..] == [b, c];
      JoinThree(Above(n, 2), b, c);
    case _ =>
      assert Utf8(n)[1..] == [a, b, c];
      JoinFour(Above(n, 3), a, b, c);
  }

  lemma NoTails(high: bv64)
    ensures JoinAll(high, []) == high && AllTails([])
  {
  }

  lemma BitsBelow(b: bv8)
    ensures Bits(b, 0x7F) < 0x80 && Bits(b, 0x1F) < 0x20 && Bits(b, 0x0F) < 0x10 && Bits(b, 0x3F) < 0x40
  {
  }

  lemma JoinBelow(high: bv64, low: bv64)
    requires low < 0x40
    ensures high < 0x20 ==> Join(high, low) < 0x800
    ensures high < 0x10 ==> Join(high, low) < 0x400
    ensures high < 0x400 ==> Join(high, low) < 0x1_0000
  {
  }

  /** What one, two and three bytes can stand for. */
  lemma DecodedBelow(r: seq<bv8>)
    requires Decode(r).Decoded?
    ensures |r| == 1 ==> Decode(r).n < 0x80
    ensures |r| == 2 ==> Decode(r).n < 0x800
    ensures |r| == 3 ==> Decode(r).n < 0x1_0000
  {
    hide Bits, Join, JoinAll, AllTails, Announced;
    BitsBelow(r[0]);
    if |r| == 1 {
      assert r[1..] == [];
      NoTails(Bits(r[0], 0x7F));
    } else if |r| == 2 {
      assert r[1..] == [r[1]];
      BitsBelow(r[1]);
      JoinTwo(Bits(r[0], 0x1F), r[1]);
      JoinBelow(Bits(r[0], 0x1F), Bits(r[1], 0x3F));
    } else if |r| == 3 {
      assert r[1..] == [r[1], r[2]];
      BitsBelow(r[1]);
      BitsBelow(r[2]);
      JoinThree(Bits(r[0], 0x0F), r[1], r[2]);
      var high := Join(Bits(r[0], 0x0F), Bits(r[1], 0x3F));
      JoinBelow(Bits(r[0], 0x0F), Bits(r[1], 0x3F));
      JoinBelow(high, Bits(r[2], 0x3F));
    }
  }

  /** The bytes of a number are the shortest that stand for it. */
  lemma NoShorterForm(n: bv64, r: seq<bv8>)
    requires Utf8Length(n) > 0 && Decode(r) == Decoded(n)
    ensures |Utf8(n)| <= |r|
  {
    hide Decode;
    DecodedBelow(r);
    assert r != [] by { NothingDecoded(); }
  }

  lemma NothingDecoded()
    ensures Decode([]) == Malformed
  {
  }

  // ---------- The table of byte counts ----------

  /** utf8ByteTable: 1 also stands for bytes that lead nothing. */
  function ByteTable(lead: bv8): nat {
    if lead < 0xC2 then 1 else if lead < 0xE0 then 2 else if lead < 0xF0 then 3 else if lead < 0xF5 then 4 else 1
  }

  /** The table agrees with the encoder exactly below 0x140000, which covers all of Unicode. */
  lemma TableCountsBytes(n: bv64)
    requires Utf8Length(n) > 0
    ensures ByteTable(Utf8(n)[0]) == |Utf8(n)| <==> n < 0x14_0000
  {
    hide Utf8Length, Above, Lead, Tail, ByteTable, Bits, Announced, LeadMask;
    AboveStep(n, 0);
    LeadIsRight(n);
  }

  // ---------- ConvertUTF32ToUTF8 ----------

  const BYTE_MASK: bv64 := 0xBF
  const BYTE_MARK: bv64 := 0x80

  function FirstByteMark(length: nat): bv64 {
    match length
    case 2 => 0xC0
    case 3 => 0xE0
    case 4 => 0xF0
    case _ => 0
  }

  function MarkedTail(n: bv64): bv8 {
    Low8((n | BYTE_MARK) & BYTE_MASK)
  }

  function MarkedLead(n: bv64, length: nat): bv8 {
    Low8(n | FirstByteMark(length))
  }

  lemma MarkedIsTail(n: bv64)
    ensures MarkedTail(n) == Tail(n)
  {
  }

  lemma MarkedIsLead(n: bv64)
    ensures MarkedLead(n, 1) == Lead(n, 1) && MarkedLead(n, 2) == Lead(n, 2)
  {
  }

  lemma MarkedIsLongLead(n: bv64)
    ensures MarkedLead(n, 3) == Lead(n, 3) && MarkedLead(n, 4) == Lead(n, 4)
  {
  }

  /** The bytes are filled in from the last one to the first; the cases of the switch fall through. */
  method ConvertUtf32ToUtf8(input: bv64, output: array<bv8>) returns (length: nat)
    requires output.Length >= 4
    modifies output
    ensures length == Utf8Length(input) && output[..length] == Utf8(input)
    ensures forall k :: length <= k < output.Length ==> output[k] == old(output[k])
  {
    hide Utf8Length, DropSix, MarkedTail, MarkedLead, Tail, Lead, Above;
    length := LengthFor(input);
    if length == 0 {
      return;
    }
    var at, rest := length, input;
    AboveStep(input, 0);
    AboveStep(input, 1);
    AboveStep(input, 2);
    MarkedIsTail(Above(input, 0));
    MarkedIsTail(Above(input, 1));
    MarkedIsTail(Above(input, 2));
    if length >= 4 {
      at := at - 1;
      output[at] := MarkedTail(rest);
      rest := DropSix(rest);
    }
    if length >= 3 {
      at := at - 1;
      output[at] := MarkedTail(rest);
      rest := DropSix(rest);
    }
    if length >= 2 {
      at := at - 1;
      output[at] := MarkedTail(rest);
      rest := DropSix(rest);
    }
    MarkedIsLead(rest);
    MarkedIsLongLead(rest);
    at := at - 1;
    output[at] := MarkedLead(rest, length);
  }

  method LengthFor(input: bv64) returns (length: nat)
    ensures length == Utf8Length(input)
  {
    if input < 0x80 {
      length := 1;
    } else if input < 0x800 {
      length := 2;
    } else if input < 0x1_0000 {
      length := 3;
    } else if input < 0x20_0000 {
      length := 4;
    } else {
      length := 0;
    }
  }

  // ---------- The digits ----------

  /** A string of digits of the base. */
  predicate Digits(t: string, base: nat) {
    forall k :: 0 <= k < |t| ==> DigitOf(t[k], base).Good?
  }

  /** The number it denotes. */
  function ValueOf(t: string, base: nat): nat
    requires Digits(t, base)
  {
    if t == "" then 0 else ValueOf(t[..|t| - 1], base) * base + DigitOf(t[|t| - 1], base).n
  }

  /**
    The loop from the right adds up the number although the weight wraps at 32 bits: where it has wrapped,
    only zeros are left if the number fits.
   */
  lemma {:induction false} ReadDigitsIsValue(t: string, mark: char, base: nat, weight: nat, ucs: nat)
    requires Digits(t, base) && DigitOf(mark, base).Bad? && base > 0 && weight > 0
    requires ucs + weight * ValueOf(t, base) < WORD32
    ensures ReadDigits([mark] + t, mark, base, weight % WORD32, ucs) == Good(ucs + weight * ValueOf(t, base))
    decreases |t|
  {
    hide DigitOf;
    if t == "" {
      assert ([mark] + t)[|t|] == mark;
    } else {
      var d, front := DigitOf(t[|t| - 1], base).n, t[..|t| - 1];
      var v := ValueOf(front, base);
      var heavier, more := weight * base, ucs + weight * d;
      OneDigitCounts(weight, base, v, d, ucs, heavier, more);
      ReadOneDigit(t, mark, base, weight % WORD32, ucs, d);
      ReadDigitsIsValue(front, mark, base, heavier, more);
    }
  }

  lemma ReadOneDigit(t: string, mark: char, base: nat, mult: nat, ucs: nat, d: nat)
    requires t != "" && Digits(t, base) && DigitOf(mark, base).Bad? && DigitOf(t[|t| - 1], base) == Good(d)
    ensures ReadDigits([mark] + t, mark, base, mult, ucs)
         == ReadDigits([mark] + t[..|t| - 1], mark, base, mult * base % WORD32, (ucs + mult * d % WORD32) % WORD64)
  {
    hide DigitOf, Digits;
    var all := [mark] + t;
    assert all[|all| - 1] == t[|t| - 1] != mark && all[..|all| - 1] == [mark] + t[..|t| - 1];
  }

  /** What one turn of the loop adds, while the sum stays below 2^32. */
  lemma OneDigitCounts(weight: nat, base: nat, v: nat, d: nat, ucs: nat, heavier: nat, more: nat)
    requires weight > 0 && base > 0 && ucs + weight * (v * base + d) < WORD32
    requires heavier == weight * base && more == ucs + weight * d
    ensures heavier > 0 && weight % WORD32 * base % WORD32 == heavier % WORD32
    ensures (ucs + weight % WORD32 * d % WORD32) % WORD64 == more
    ensures more + heavier * v == ucs + weight * (v * base + d) < WORD32
  {
    Distribute(weight, base, v, d);
    WeightedDigit(weight, d, weight * d + heavier * v);
    WrappedWeight(weight, base);
  }

  lemma Distribute(weight: nat, base: nat, v: nat, d: nat)
    requires weight > 0 && base > 0
    ensures weight * (v * base + d) == weight * d + weight * base * v
    ensures weight * d >= 0 && weight * base * v >= 0 && weight * base > 0
  {
  }

  lemma WeightedDigit(weight: nat, d: nat, total: nat)
    requires weight * d <= total < WORD32
    ensures (weight % WORD32) * d % WORD32 == weight * d
  {
    if d > 0 {
      assert weight <= weight * d;
    }
  }

  lemma WrappedWeight(weight: nat, base: nat)
    ensures weight % WORD32 * base % WORD32 == weight * base % WORD32
  {
    var q := weight / WORD32;
    assert weight == q * WORD32 + weight % WORD32;
    assert weight * base == q * base * WORD32 + weight % WORD32 * base;
    ModAdd(q * base, weight % WORD32 * base);
  }

  lemma ModAdd(q: nat, r: nat)
    ensures (q * WORD32 + r) % WORD32 == r % WORD32
  {
  }

  // ---------- Hexadecimal digits beyond 32 bits ----------

  predicate PowerOf16(q: nat) {
    q == 1 || (q > 1 && q % 16 == 0 && PowerOf16(q / 16))
  }

  /** Once the weight has wrapped to 0, further digits count for nothing. */
  lemma {:induction false} WeightlessDigits(t: string, ucs: nat)
    requires Digits(t, 16) && ucs < WORD64
    ensures ReadDigits(['x'] + t, 'x', 16, 0, ucs) == Good(ucs)
    decreases |t|
  {
    MarksAreBad();
    if t == "" {
      assert (['x'] + t)[|t|] == 'x';
    } else {
      ReadOneDigit(t, 'x', 16, 0, ucs, DigitOf(t[|t| - 1], 16).n);
      WeightlessDigits(t[..|t| - 1], ucs);
    }
  }

  lemma AtMostFifteen(weight: nat, d: nat)
    requires d < 16
    ensures weight * d <= 15 * weight
  {
  }

  lemma FitsBelow(weight: nat, product: nat, ucs: nat)
    requires product <= 15 * weight && 16 * weight <= WORD32 && ucs < weight
    ensures ucs + product < weight * 16 && (ucs + product % WORD32) % WORD64 == ucs + product
  {
  }

  lemma HexRemainder(weight: nat, q: nat, v: nat, d: nat, m: nat)
    requires q == 16 * m && m > 0 && d < 16
    ensures weight * ((v * 16 + d) % q) == weight * 16 * (v % m) + weight * d
  {
    SplitRemainder(v, m, d);
    Spread(weight, v % m, d);
  }

  /** What one hexadecimal digit adds while the weight, times q, is 2^32. */
  lemma HexDigitCounts(weight: nat, q: nat, v: nat, d: nat, ucs: nat, heavier: nat, m: nat, more: nat)
    requires weight * q == WORD32 && q > 1 && q % 16 == 0 && d < 16 && ucs < weight
    requires heavier == weight * 16 && m == q / 16 && more == ucs + weight * d
    ensures heavier * m == WORD32 && weight < WORD32 && more < heavier
    ensures (ucs + weight * d % WORD32) % WORD64 == more
    ensures more + heavier * (v % m) == ucs + weight * ((v * 16 + d) % q)
  {
    HeavierStillFits(weight, m);
    var product := weight * d;
    AtMostFifteen(weight, d);
    FitsBelow(weight, product, ucs);
    HexRemainder(weight, q, v, d, m);
  }

  lemma HeavierStillFits(weight: nat, m: nat)
    requires weight * (16 * m) == WORD32
    ensures m > 0 && weight > 0 && 16 * weight * m == WORD32 && 16 * weight <= WORD32
  {
    assert weight * (16 * m) == 16 * weight * m;
    assert m >= 1;
  }

  lemma Spread(weight: nat, r: nat, d: nat)
    ensures weight * (16 * r + d) == 16 * weight * r + weight * d
  {
  }

  lemma SplitRemainder(v: nat, m: nat, d: nat)
    requires m > 0 && d < 16
    ensures (16 * v + d) % (16 * m) == 16 * (v % m) + d
  {
    var k := v / m;
    assert v == m * k + v % m;
    assert 16 * v + d == (16 * m) * k + (16 * (v % m) + d);
    Remainder(16 * m, k, 16 * (v % m) + d);
  }

  lemma Remainder(n: nat, k: nat, r: nat)
    requires r < n
    ensures (n * k + r) % n == r
  {
    var y := n * k + r;
    SameRemainder(n, y / n, y % n, k, r);
  }

  lemma SameRemainder(n: nat, a: int, r: nat, b: int, s: nat)
    requires r < n && s < n && n * a + r == n * b + s
    ensures r == s
  {
    Difference(n, a, b);
    if a > b {
      AtLeast(n, a - b);
    } else if a < b {
      AtLeast(n, b - a);
    }
  }

  lemma Difference(n: nat, a: int, b: int)
    ensures n * a - n * b == n * (a - b) && n * (b - a) == -(n * (a - b))
  {
  }

  lemma AtLeast(n: nat, k: nat)
    requires k > 0
    ensures n * k >= n
  {
  }

  lemma HexValue(t: string) returns (d: nat)
    requires Digits(t, 16) && t != ""
    ensures d < 16 && DigitOf(t[|t| - 1], 16) == Good(d) && ValueOf(t, 16) == ValueOf(t[..|t| - 1], 16) * 16 + d
  {
    d := DigitOf(t[|t| - 1], 16).n;
    DigitIsSmall(t[|t| - 1]);
  }

  lemma ReadHexDigit(t: string, weight: nat, ucs: nat, d: nat, more: nat)
    requires t != "" && Digits(t, 16) && DigitOf(t[|t| - 1], 16) == Good(d)
    requires weight < WORD32 && (ucs + weight * d % WORD32) % WORD64 == more
    ensures ReadDigits(['x'] + t, 'x', 16, weight, ucs)
         == ReadDigits(['x'] + t[..|t| - 1], 'x', 16, weight * 16 % WORD32, more)
  {
    hide DigitOf, ReadDigits;
    MarksAreBad();
    ReadOneDigit(t, 'x', 16, weight, ucs, d);
  }

  /** What is left of v, in units of weight, once only its remainder by q counts. */
  function Wrapped(ucs: nat, weight: nat, v: nat, q: nat): nat
    requires q > 0
  {
    ucs + weight * (v % q)
  }

  lemma NoBitsLeft(t: string, weight: nat, ucs: nat)
    requires Digits(t, 16) && weight == WORD32 && ucs < weight
    ensures ReadDigits(['x'] + t, 'x', 16, weight % WORD32, ucs) == Good(Wrapped(ucs, weight, ValueOf(t, 16), 1))
  {
    hide ReadDigits, ValueOf;
    assert weight % WORD32 == 0;
    WeightlessDigits(t, ucs);
    assert ValueOf(t, 16) % 1 == 0;
  }

  lemma NothingAdded(ucs: nat, weight: nat, q: nat)
    requires q > 0
    ensures Wrapped(ucs, weight, 0, q) == ucs
  {
    assert weight * (0 % q) == 0;
  }

  lemma HexStep(weight: nat, q: nat, v: nat, d: nat, n: nat, ucs: nat)
    requires weight * q == WORD32 && q > 1 && q % 16 == 0 && d < 16 && n == v * 16 + d && ucs < weight
    ensures weight * 16 * (q / 16) == WORD32 && weight < WORD32 && ucs + weight * d < weight * 16
    ensures (ucs + weight * d % WORD32) % WORD64 == ucs + weight * d
    ensures Wrapped(ucs + weight * d, weight * 16, v, q / 16) == Wrapped(ucs, weight, n, q)
  {
    HexDigitCounts(weight, q, v, d, ucs, weight * 16, q / 16, ucs + weight * d);
  }

  lemma {:induction false} HexLoop(t: string, weight: nat, q: nat, ucs: nat)
    requires Digits(t, 16) && PowerOf16(q) && weight * q == WORD32 && ucs < weight
    ensures ReadDigits(['x'] + t, 'x', 16, weight % WORD32, ucs) == Good(Wrapped(ucs, weight, ValueOf(t, 16), q))
    decreases |t|
  {
    hide DigitOf, ReadDigits, PowerOf16, Wrapped;
    PowerStep(q);
    if q == 1 {
      NoBitsLeft(t, weight, ucs);
    } else if t == "" {
      MarksAreBad();
      NoDigits('x', 16, weight % WORD32, ucs);
      NothingAdded(ucs, weight, q);
    } else {
      var d := HexValue(t);
      var front := t[..|t| - 1];
      hide ValueOf;
      HexStep(weight, q, ValueOf(front, 16), d, ValueOf(t, 16), ucs);
      ReadHexDigit(t, weight, ucs, d, ucs + weight * d);
      HexLoop(front, weight * 16, q / 16, ucs + weight * d);
    }
  }

  /** The loop over hexadecimal digits keeps the lowest 32 bits. */
  lemma HexDigitsWrap(t: string)
    requires Digits(t, 16)
    ensures ReadDigits(['x'] + t, 'x', 16, 1, 0) == Good(ValueOf(t, 16) % WORD32)
  {
    hide ReadDigits, ValueOf;
    TwoTo32IsPower();
    HexLoop(t, 1, WORD32, 0);
  }

  lemma PowerStep(q: nat)
    ensures PowerOf16(q) ==> q == 1 || (q > 1 && q % 16 == 0 && PowerOf16(q / 16))
  {
  }

  lemma NoDigits(mark: char, base: nat, mult: nat, ucs: nat)
    ensures ReadDigits([mark] + "", mark, base, mult, ucs) == Good(ucs)
  {
  }

  lemma DigitIsSmall(c: char)
    ensures DigitOf(c, 16).Good? ==> DigitOf(c, 16).n < 16
  {
  }

  lemma TwoTo32IsPower()
    ensures PowerOf16(WORD32)
  {
    assert PowerOf16(0x1_0000);
    assert PowerOf16(0x10_0000);
  }

  // ---------- Decimal digits beyond 32 bits ----------

  const FIVE_E9: nat := 5_000_000_000

  lemma DecimalDigit(c: char)
    ensures DigitOf(c, 10).Good? ==> DigitOf(c, 10).n < 10
  {
  }

  lemma {:induction false} ZeroDigits(t: string, mult: nat, ucs: nat)
    requires Digits(t, 10) && ValueOf(t, 10) == 0 && ucs < WORD64
    ensures ReadDigits(['#'] + t, '#', 10, mult, ucs) == Good(ucs)
    decreases |t|
  {
    hide DigitOf, ReadDigits;
    MarksAreBad();
    if t == "" {
      NoDigits('#', 10, mult, ucs);
    } else {
      ReadOneDigit(t, '#', 10, mult, ucs, 0);
      ZeroDigits(t[..|t| - 1], mult * 10 % WORD32, ucs);
    }
  }

  /** What a digit is counted for, at most. */
  lemma CountedAtMost(weight: nat, d: nat, ucs: nat)
    ensures weight % WORD32 * d % WORD32 <= weight * d
    ensures (ucs + weight % WORD32 * d % WORD32) % WORD64 <= ucs + weight * d
  {
    assert weight % WORD32 <= weight;
    assert weight % WORD32 * d <= weight * d;
  }

  lemma SplitDigit(weight: nat, v: nat, d: nat)
    ensures weight * (v * 10 + d) == weight * d + weight * 10 * v
  {
  }

  lemma Heavier(weight: nat)
    ensures weight % WORD32 * 10 % WORD32 == weight * 10 % WORD32
  {
    WrappedWeight(weight, 10);
  }

  /** The loop never reads more than the value. */
  lemma {:induction false} ReadsAtMost(t: string, weight: nat, ucs: nat)
    requires Digits(t, 10)
    ensures var r := ReadDigits(['#'] + t, '#', 10, weight % WORD32, ucs);
            r.Good? && r.n <= ucs + weight * ValueOf(t, 10)
    decreases |t|
  {
    hide DigitOf, ReadDigits;
    MarksAreBad();
    if t == "" {
      NoDigits('#', 10, weight % WORD32, ucs);
    } else {
      var d, front := DigitOf(t[|t| - 1], 10).n, t[..|t| - 1];
      var more := (ucs + weight % WORD32 * d % WORD32) % WORD64;
      CountedAtMost(weight, d, ucs);
      Heavier(weight);
      SplitDigit(weight, ValueOf(front, 10), d);
      ReadOneDigit(t, '#', 10, weight % WORD32, ucs, d);
      ReadsAtMost(front, weight * 10, more);
    }
  }

  /** From the eleventh digit on, a digit other than 0 counts for less than it should. */
  lemma {:induction false} HighDigitsFallShort(t: string, weight: nat, ucs: nat)
    requires Digits(t, 10) && weight >= WORD32 && ValueOf(t, 10) > 0
    ensures var r := ReadDigits(['#'] + t, '#', 10, weight % WORD32, ucs);
            r.Good? && r.n < ucs + weight * ValueOf(t, 10)
    decreases |t|
  {
    hide DigitOf, ReadDigits;
    MarksAreBad();
    var d, front := DigitOf(t[|t| - 1], 10).n, t[..|t| - 1];
    var more := (ucs + weight % WORD32 * d % WORD32) % WORD64;
    CountedAtMost(weight, d, ucs);
    Heavier(weight);
    SplitDigit(weight, ValueOf(front, 10), d);
    ReadOneDigit(t, '#', 10, weight % WORD32, ucs, d);
    if d > 0 {
      LessThanItsWeight(weight, d, ucs);
      ReadsAtMost(front, weight * 10, more);
    } else {
      HighDigitsFallShort(front, weight * 10, more);
    }
  }

  lemma LessThanItsWeight(weight: nat, d: nat, ucs: nat)
    requires weight * d >= WORD32
    ensures (ucs + weight % WORD32 * d % WORD32) % WORD64 < ucs + weight * d
  {
  }

  /** 5 followed by zeros. */
  predicate FiveAndZeros(q: nat) {
    q == 5 || (q > 5 && q % 10 == 0 && FiveAndZeros(q / 10))
  }

  lemma FiveStep(q: nat)
    ensures FiveAndZeros(q) ==> q == 5 || (q >= 50 && q % 10 == 0 && FiveAndZeros(q / 10))
  {
    if FiveAndZeros(q) && q != 5 {
      assert FiveAndZeros(q / 10) && q / 10 >= 5;
    }
  }

  lemma {:induction false} DecimalFallsShort(t: string, weight: nat, q: nat, ucs: nat)
    requires Digits(t, 10) && FiveAndZeros(q) && weight * q == FIVE_E9 && ValueOf(t, 10) >= q
    ensures var r := ReadDigits(['#'] + t, '#', 10, weight % WORD32, ucs);
            r.Good? && r.n < ucs + weight * ValueOf(t, 10)
    decreases |t|
  {
    hide DigitOf, ReadDigits, FiveAndZeros;
    MarksAreBad();
    FiveStep(q);
    var d, front := DigitOf(t[|t| - 1], 10).n, t[..|t| - 1];
    var v := ValueOf(front, 10);
    var more := (ucs + weight % WORD32 * d % WORD32) % WORD64;
    DecimalDigit(t[|t| - 1]);
    CountedAtMost(weight, d, ucs);
    Heavier(weight);
    SplitDigit(weight, v, d);
    ReadOneDigit(t, '#', 10, weight % WORD32, ucs, d);
    if q > 5 {
      assert weight * 10 * (q / 10) == FIVE_E9 by {
        Tenth(weight, q);
      }
      DecimalFallsShort(front, weight * 10, q / 10, more);
    } else if v > 0 {
      HighDigitsFallShort(front, weight * 10, more);
    } else {
      LessThanItsWeight(weight, d, ucs);
      ReadsAtMost(front, weight * 10, more);
    }
  }

  lemma Tenth(weight: nat, q: nat)
    requires q % 10 == 0
    ensures weight * 10 * (q / 10) == weight * q
  {
    var m := q / 10;
    assert weight * 10 * m == weight * (10 * m);
  }

  lemma DecimalDigitCounts(weight: nat, q: nat, v: nat, d: nat, ucs: nat, heavier: nat, m: nat, more: nat)
    requires weight * q == FIVE_E9 && q >= 50 && q % 10 == 0 && d < 10 && ucs < weight
    requires heavier == weight * 10 && m == q / 10 && more == ucs + weight * d
    ensures heavier * m == FIVE_E9 && weight < WORD32 && more < heavier
    ensures (ucs + weight * d % WORD32) % WORD64 == more
    ensures more + heavier * v == ucs + weight * (v * 10 + d)
  {
    Tenth(weight, q);
    assert weight * 50 <= weight * q;
    assert weight * d <= weight * 9;
    SplitDigit(weight, v, d);
  }

  /** One decimal digit below the weight of 10^9. */
  lemma DecimalStep(t: string, weight: nat, q: nat, ucs: nat) returns (more: nat)
    requires Digits(t, 10) && t != "" && weight * q == FIVE_E9 && q >= 50 && q % 10 == 0
    requires ValueOf(t, 10) < q && ucs < weight
    ensures var front := t[..|t| - 1];
            && ReadDigits(['#'] + t, '#', 10, weight % WORD32, ucs)
            == ReadDigits(['#'] + front, '#', 10, weight * 10 % WORD32, more)
            && ValueOf(front, 10) < q / 10 && more < weight * 10 && weight * 10 * (q / 10) == FIVE_E9
            && more + weight * 10 * ValueOf(front, 10) == ucs + weight * ValueOf(t, 10)
  {
    hide DigitOf, ReadDigits;
    MarksAreBad();
    var d, front := DigitOf(t[|t| - 1], 10).n, t[..|t| - 1];
    var v := ValueOf(front, 10);
    assert ValueOf(t, 10) == v * 10 + d;
    hide ValueOf;
    DecimalDigit(t[|t| - 1]);
    more := ucs + weight * d;
    DecimalDigitCounts(weight, q, v, d, ucs, weight * 10, q / 10, more);
    ReadOneDigit(t, '#', 10, weight, ucs, d);
  }

  /** The digit at the weight of 10^9, with zeros in front of it. */
  lemma TopDigit(t: string, ucs: nat)
    requires Digits(t, 10) && t != "" && ValueOf(t, 10) < 5 && ucs < 1_000_000_000
    ensures ReadDigits(['#'] + t, '#', 10, 1_000_000_000, ucs) == Good(ucs + 1_000_000_000 * ValueOf(t, 10))
  {
    hide DigitOf, ReadDigits;
    MarksAreBad();
    var d, front := DigitOf(t[|t| - 1], 10).n, t[..|t| - 1];
    DecimalDigit(t[|t| - 1]);
    assert ValueOf(front, 10) == 0 && ValueOf(t, 10) == d;
    ReadOneDigit(t, '#', 10, 1_000_000_000, ucs, d);
    ZeroDigits(front, 1_000_000_000 * 10 % WORD32, ucs + 1_000_000_000 * d);
  }

  lemma {:induction false} DecimalIsExact(t: string, weight: nat, q: nat, ucs: nat)
    requires Digits(t, 10) && FiveAndZeros(q) && weight * q == FIVE_E9 && ValueOf(t, 10) < q && ucs < weight
    ensures ReadDigits(['#'] + t, '#', 10, weight % WORD32, ucs) == Good(ucs + weight * ValueOf(t, 10))
    decreases |t|
  {
    hide DigitOf, ReadDigits, FiveAndZeros;
    MarksAreBad();
    FiveStep(q);
    if t == "" {
      NoDigits('#', 10, weight % WORD32, ucs);
    } else {
      if q > 5 {
        var more := DecimalStep(t, weight, q, ucs);
        DecimalIsExact(t[..|t| - 1], weight * 10, q / 10, more);
      } else {
        assert weight == 1_000_000_000;
        TopDigit(t, ucs);
      }
    }
  }

  lemma FiveE9()
    ensures FiveAndZeros(FIVE_E9)
  {
    assert FiveAndZeros(5_000);
    assert FiveAndZeros(5_000_000);
  }

  // ---------- References ----------

  /** GetEntity on a numeric reference in UTF-8 mode: where it ends and the bytes it stands for. */
  function Utf8Reference(s: string): (r: (Ptr, seq<bv8>))
    requires IsNumericReference(s)
  {
    match NumericReference(s)
    case (p, Bad) => (p, [])
    case (p, Good(n)) => (p, Utf8(Word(n)))
  }

  /** An unsigned long. */
  function Word(n: nat): bv64 {
    (n % WORD64) as bv64
  }

  lemma NoSemicolon(t: string, base: nat)
    requires Digits(t, base)
    ensures ';' !in t && 'x' !in t && '#' !in t
  {
  }

  /** The parts a closed reference is cut into. */
  lemma Cut(head: string, t: string, rest: string)
    requires head != "" && ';' !in t
    ensures var s := head + (t + [';'] + rest);
            var from := |head|;
            && s[from..] == t + [';'] + rest && Find(s[from..], ';') == |t| < |s| - from
            && s[from - 1..from + |t|] == [head[from - 1]] + t && s[from + |t| + 1..] == rest
  {
    hide Find;
    var s := head + (t + [';'] + rest);
    assert s[|head|..] == t + [';'] + rest;
    XmlTextRoundTrip.FindAfter(t, ';', rest);
    assert s[|head| - 1..|head| + |t|] == [head[|head| - 1]] + t;
    assert s[|head| + |t| + 1..] == rest;
  }

  lemma DecimalReference(t: string, rest: string)
    requires Digits(t, 10) && ValueOf(t, 10) < WORD32
    ensures IsNumericReference("&#" + (t + [';'] + rest))
    ensures NumericReference("&#" + (t + [';'] + rest)) == (At(rest), Good(ValueOf(t, 10)))
  {
    hide ReadDigits, Find, DigitOf;
    var s := "&#" + (t + [';'] + rest);
    NoSemicolon(t, 10);
    Cut("&#", t, rest);
    assert s[2] == if t == "" then ';' else t[0];
    MarksAreBad();
    ReadDigitsIsValue(t, '#', 10, 1, 0);
  }

  lemma HexReference(t: string, rest: string)
    requires Digits(t, 16) && ValueOf(t, 16) < WORD32
    ensures IsNumericReference("&#x" + (t + [';'] + rest))
    ensures NumericReference("&#x" + (t + [';'] + rest)) == (At(rest), Good(ValueOf(t, 16)))
  {
    hide ReadDigits, Find, DigitOf;
    NoSemicolon(t, 16);
    Cut("&#x", t, rest);
    MarksAreBad();
    ReadDigitsIsValue(t, 'x', 16, 1, 0);
  }

  /** Of the decimal references exactly those below 5 000 000 000 are read as their value. */
  lemma DecimalReferenceIsRight(t: string, rest: string)
    requires Digits(t, 10)
    ensures IsNumericReference("&#" + (t + [';'] + rest))
    ensures NumericReference("&#" + (t + [';'] + rest)) == (At(rest), Good(ValueOf(t, 10))) <==> ValueOf(t, 10) < FIVE_E9
  {
    hide ReadDigits, Find, DigitOf, FiveAndZeros;
    var s := "&#" + (t + [';'] + rest);
    NoSemicolon(t, 10);
    Cut("&#", t, rest);
    assert s[2] == if t == "" then ';' else t[0];
    FiveE9();
    if ValueOf(t, 10) < FIVE_E9 {
      DecimalIsExact(t, 1, FIVE_E9, 0);
    } else {
      DecimalFallsShort(t, 1, FIVE_E9, 0);
    }
  }

  /** Of the hexadecimal references exactly those below 2^32 are read as their value. */
  lemma HexReferenceIsRight(t: string, rest: string)
    requires Digits(t, 16)
    ensures IsNumericReference("&#x" + (t + [';'] + rest))
    ensures NumericReference("&#x" + (t + [';'] + rest)) == (At(rest), Good(ValueOf(t, 16) % WORD32))
    ensures NumericReference("&#x" + (t + [';'] + rest)) == (At(rest), Good(ValueOf(t, 16))) <==> ValueOf(t, 16) < WORD32
  {
    hide ReadDigits, Find, DigitOf;
    NoSemicolon(t, 16);
    Cut("&#x", t, rest);
    HexDigitsWrap(t);
  }

  lemma MarksAreBad()
    ensures DigitOf('#', 10).Bad? && DigitOf('x', 16).Bad?
  {
  }

  lemma WordInRange(n: nat)
    requires n < WORD64
    ensures Word(n) == n as bv64
  {
    assert n % WORD64 == n;
  }

  lemma BackAndForth(u: bv64)
    ensures (u as nat) as bv64 == u
  {
  }

  lemma SmallWord(n: nat)
    requires n < 0x11_0000
    ensures n as bv64 < 0x20_0000
  {
  }

  lemma WordOf(u: bv64)
    requires u as nat < 0x11_0000
    ensures Word(u as nat) == u && u < 0x20_0000
  {
    hide Word;
    BackAndForth(u);
    SmallWord(u as nat);
    WordInRange(u as nat);
  }

  /** A reference, in decimal or hexadecimal digits. */
  function Reference(t: string, hex: bool, rest: string): string {
    (if hex then "&#x" else "&#") + (t + [';'] + rest)
  }

  /**
    Every reference to a number of Unicode, with any number of leading zeros, is read as bytes that decode
    to that number, as many as the table says for their lead byte.
   */
  lemma ReferenceGivesItsNumber(t: string, hex: bool, rest: string, u: bv64)
    requires Digits(t, if hex then 16 else 10) && ValueOf(t, if hex then 16 else 10) == u as nat < 0x11_0000
    ensures IsNumericReference(Reference(t, hex, rest))
    ensures var (p, bytes) := Utf8Reference(Reference(t, hex, rest));
            p == At(rest) && bytes != [] && Decode(bytes) == Decoded(u) && ByteTable(bytes[0]) == |bytes|
  {
    hide NumericReference, Decode, Utf8, ByteTable, Word;
    WordOf(u);
    if hex {
      HexReference(t, rest);
    } else {
      DecimalReference(t, rest);
    }
    DecodeUndoesUtf8(u);
    TableCountsBytes(u);
  }
}
