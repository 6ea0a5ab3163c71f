/** The MD5 digest of a whole message (RFC 1321, sections 3.1 to 3.5), and folding over blocks piece by piece. */
module Md5Spec {
  import opened Md5Compress
  import opened Md5Words

  const INIT: State := State(0x67452301, 0xEFCDAB89, 0x98BADCFE, 0x10325476)

  /** The state after the full blocks of m; a partial block at the end is left out. */
  function Fold(st: State, m: seq<octet>): State
    decreases |m|
  {
    if |m| < 64 then st else Fold(Compress(st, m[..64]), m[64..])
  }

  /** What is left of m behind its last full block. */
  function Tail(m: seq<octet>): (r: seq<octet>)
    ensures |r| == |m| % 64
  {
    m[|m| - |m| % 64..]
  }

  lemma {:induction false} FoldAppend(st: State, a: seq<octet>, b: seq<octet>)
    requires |a| % 64 == 0
    ensures Fold(st, a + b) == Fold(Fold(st, a), b)
    decreases |a|
  {
    hide Compress;
    if a == [] {
      assert a + b == b;
    } else {
      assert |a| >= 64;
      assert (a + b)[..64] == a[..64] && (a + b)[64..] == a[64..] + b;
      FoldAppend(Compress(st, a[..64]), a[64..], b);
    }
  }

  lemma FoldOneBlock(st: State, block: seq<octet>)
    requires |block| == 64
    ensures Fold(st, block) == Compress(st, block)
  {
    assert block[..64] == block && block[64..] == [];
  }

  /** A partial block at the end changes nothing yet. */
  lemma FoldPartial(st: State, a: seq<octet>, b: seq<octet>)
    requires |a| % 64 == 0 && |b| < 64
    ensures Fold(st, a + b) == Fold(st, a)
  {
    FoldAppend(st, a, b);
  }

  function Zeros(n: nat): (r: seq<octet>)
    ensures |r| == n
  {
    seq(n, _ => 0)
  }

  /** How many zero bytes make the length congruent to 56 modulo 64 behind the 0x80. */
  function PadZeros(n: nat): (k: nat)
    ensures k < 64 && (n + 1 + k) % 64 == 56
  {
    (119 - n % 64) % 64
  }

  /** The 64 low-order bits of the length in bits, as two words, low-order word first. */
  function LengthBytes(n: nat): (r: seq<octet>)
    ensures |r| == 8
  {
    PutWord(AsWord(8 * n % WORD)) + PutWord(AsWord(8 * n / WORD % WORD))
  }

  function Padding(n: nat): seq<octet> {
    [0x80] + Zeros(PadZeros(n)) + LengthBytes(n)
  }

  function Output(st: State): (r: seq<octet>)
    ensures |r| == 16
  {
    PutWord(st.a) + PutWord(st.b) + PutWord(st.c) + PutWord(st.d)
  }

  function Digest(m: seq<octet>): seq<octet> {
    Output(Fold(INIT, m + Padding(|m|)))
  }

  lemma PaddedIsWhole(m: seq<octet>)
    ensures |m + Padding(|m|)| % 64 == 0
  {
    hide PutWord, LengthBytes, Zeros;
    assert |Padding(|m|)| == 1 + PadZeros(|m|) + 8;
  }

  // ---------- What one update does to the fold and to the tail ----------

  lemma SplitTail(m: seq<octet>) returns (whole: seq<octet>)
    ensures |whole| % 64 == 0 && m == whole + Tail(m)
  {
    whole := m[..|m| - |m| % 64];
  }

  /** Completing the buffered tail to a block. */
  lemma AbsorbFill(st: State, m: seq<octet>, p: seq<octet>)
    requires |Tail(m)| + |p| == 64
    ensures Fold(st, m + p) == Compress(Fold(st, m), Tail(m) + p)
  {
    hide Fold, Compress, Tail;
    var whole := SplitTail(m);
    TailIsShort(m);
    FoldPartial(st, whole, Tail(m));
    assert m + p == whole + (Tail(m) + p);
    FoldAppend(st, whole, Tail(m) + p);
    FoldOneBlock(Fold(st, whole), Tail(m) + p);
  }

  lemma TailIsShort(m: seq<octet>)
    ensures |Tail(m)| < 64 && (|m| % 64 == 0 ==> Tail(m) == [])
  {
  }

  /** A whole block when nothing is buffered. */
  lemma AbsorbBlock(st: State, m: seq<octet>, block: seq<octet>)
    requires |m| % 64 == 0 && |block| == 64
    ensures Fold(st, m + block) == Compress(Fold(st, m), block)
  {
    hide Fold, Compress;
    FoldAppend(st, m, block);
    FoldOneBlock(Fold(st, m), block);
  }

  /** Bytes that do not complete a block. */
  lemma AbsorbPartial(st: State, m: seq<octet>, r: seq<octet>)
    requires |Tail(m)| + |r| < 64
    ensures Fold(st, m + r) == Fold(st, m) && Tail(m + r) == Tail(m) + r
  {
    hide Fold, Tail;
    var whole := SplitTail(m);
    PartialFold(st, whole, Tail(m), r);
    assert m + r == whole + (Tail(m) + r);
    TailBehind(whole, Tail(m) + r);
  }

  lemma PartialFold(st: State, whole: seq<octet>, t: seq<octet>, r: seq<octet>)
    requires |whole| % 64 == 0 && |t| + |r| < 64
    ensures Fold(st, whole + (t + r)) == Fold(st, whole + t)
  {
    hide Fold;
    FoldPartial(st, whole, t);
    FoldPartial(st, whole, t + r);
  }

  lemma TailBehind(whole: seq<octet>, t: seq<octet>)
    requires |whole| % 64 == 0 && |t| < 64
    ensures Tail(whole + t) == t
  {
    assert |whole + t| % 64 == |t|;
  }

  // ---------- The two-word byte counter ----------

  /** Adding to the low word and carrying when the sum is smaller than the summand. */
  lemma CounterAdds(n: nat, length: nat)
    requires 0 < length < WORD
    ensures var low := (n % WORD + length) % WORD;
            && low == (n + length) % WORD
            && (if low < length then (n / WORD % WORD + 1) % WORD else n / WORD % WORD) == (n + length) / WORD % WORD
  {
    var q, r := n / WORD, n % WORD;
    assert n == q * WORD + r;
    if r + length < WORD {
      assert (n + length) / WORD == q && (n + length) % WORD == r + length;
    } else {
      assert n + length == (q + 1) * WORD + (r + length - WORD);
      assert (n + length) / WORD == q + 1 && (n + length) % WORD == r + length - WORD;
      assert (q % WORD + 1) % WORD == (q + 1) % WORD;
    }
  }

  /** The counter times eight, across the two words: (total[0] >> 29) | (total[1] << 3), and total[0] << 3. */
  lemma CounterBits(n: nat)
    ensures var t0, t1 := n % WORD, n / WORD % WORD;
            && t0 * 8 % WORD == 8 * n % WORD
            && t0 / 0x2000_0000 + t1 * 8 % WORD == 8 * n / WORD % WORD
  {
    var q, t0 := n / WORD, n % WORD;
    var t1 := q % WORD;
    assert n == q * WORD + t0;
    var h, l := t0 / 0x2000_0000, t0 % 0x2000_0000;
    assert 8 * t0 == h * WORD + 8 * l && 0 <= 8 * l < WORD && 0 <= h < 8;
    assert 8 * n == (8 * q + h) * WORD + 8 * l;
    assert 8 * n / WORD == 8 * q + h && 8 * n % WORD == 8 * l;
    assert t0 * 8 % WORD == 8 * l;
    EightTimes(q, h);
  }

  lemma EightTimes(q: nat, h: nat)
    requires h < 8
    ensures h + (q % WORD) * 8 % WORD == (8 * q + h) % WORD
  {
    var q8, low := q / 0x2000_0000, q % 0x2000_0000;
    assert q == q8 * 0x2000_0000 + low;
    assert 8 * q == q8 * WORD + 8 * low;
    assert 8 * low + h < WORD;
    assert (8 * q + h) % WORD == 8 * low + h;
    var a, t1 := q / WORD, q % WORD;
    assert 8 * t1 == 8 * q - (8 * a) * WORD == (q8 - 8 * a) * WORD + 8 * low;
    assert 8 * t1 % WORD == 8 * low;
  }

  /** The bits of the counter, shifted as words, are the length in bits. */
  lemma ShiftedCounter(n: nat, t0: word, t1: word)
    requires Value(t0) == n % WORD && Value(t1) == n / WORD % WORD
    ensures Left3(t0) == AsWord(8 * n % WORD)
    ensures Or(Right29(t0), Left3(t1)) == AsWord(8 * n / WORD % WORD)
  {
    hide Left3, Right29, Or, Value, AsWord;
    CounterBits(n);
    ShiftsAreArithmetic(t0);
    ShiftsAreArithmetic(t1);
    OrIsPlus(t0, t1);
    WordOfValue(Left3(t0));
    WordOfValue(Or(Right29(t0), Left3(t1)));
  }

  lemma LowAndHigh(b: nat)
    ensures b % WORD + WORD * (b / WORD % WORD) == b % (WORD * WORD)
  {
    var q, r := b / WORD, b / WORD / WORD;
    assert b == (q % WORD + r * WORD) * WORD + b % WORD;
    assert b == r * (WORD * WORD) + (b % WORD + WORD * (q % WORD));
  }

  lemma SecondWord(a: seq<octet>, b: seq<octet>)
    requires |a| == |b| == 4
    ensures GetWord(a + b, 0) == GetWord(a, 0) && GetWord(a + b, 4) == GetWord(b, 0)
  {
    assert forall k :: 0 <= k < 4 ==> (a + b)[k] == a[k] && (a + b)[k + 4] == b[k];
  }

  /** Section 3.2: the appended eight bytes are the length in bits modulo 2^64, as two words, the low-order one first. */
  lemma LengthInBits(n: nat)
    ensures Value(GetWord(LengthBytes(n), 0)) + WORD * Value(GetWord(LengthBytes(n), 4)) == 8 * n % 0x1_0000_0000_0000_0000
  {
    hide GetWord, PutWord, AsWord, Value;
    var low, high := 8 * n % WORD, 8 * n / WORD % WORD;
    SecondWord(PutWord(AsWord(low)), PutWord(AsWord(high)));
    GetUndoesPut(AsWord(low));
    GetUndoesPut(AsWord(high));
    ValueOfWord(low);
    ValueOfWord(high);
    LowAndHigh(8 * n);
  }
}
