/**
  The MD5 compression function: section 3.4 of RFC 1321 step by step, and the unrolled form with its
  rewritten boolean functions and shift-based rotation.
 */
module Md5Compress {

  type word = bv32
  type octet = bv8

  datatype State = State(a: word, b: word, c: word, d: word)

  // ---------- Words and bytes, low-order byte first ----------

  function GetWord(b: seq<octet>, i: nat): word
    requires i + 4 <= |b|
  {
    (b[i] as word) | (b[i + 1] as word << 8) | (b[i + 2] as word << 16) | (b[i + 3] as word << 24)
  }

  function PutWord(n: word): (r: seq<octet>)
    ensures |r| == 4
  {
    [(n & 0xFF) as octet, ((n >> 8) & 0xFF) as octet, ((n >> 16) & 0xFF) as octet, ((n >> 24) & 0xFF) as octet]
  }

  lemma GetUndoesPut(n: word)
    ensures GetWord(PutWord(n), 0) == n
  {
  }

  lemma PutUndoesGet(b: seq<octet>)
    requires |b| == 4
    ensures PutWord(GetWord(b, 0)) == b
  {
  }

  function Words(block: seq<octet>): (r: seq<word>)
    requires |block| == 64
    ensures |r| == 16 && forall k :: 0 <= k < 16 ==> r[k] == GetWord(block, 4 * k)
  {
    seq(16, k requires 0 <= k < 16 => GetWord(block, 4 * k))
  }

  // ---------- RFC 1321, section 3.4 ----------

  function F(x: word, y: word, z: word): word { (x & y) | (!x & z) }
  function G(x: word, y: word, z: word): word { (x & z) | (y & !z) }
  function H(x: word, y: word, z: word): word { x ^ y ^ z }
  function I(x: word, y: word, z: word): word { y ^ (x | !z) }

  /** The auxiliary function of step i. */
  function Aux(i: nat, x: word, y: word, z: word): word {
    if i < 16 then F(x, y, z) else if i < 32 then G(x, y, z) else if i < 48 then H(x, y, z) else I(x, y, z)
  }

  /** The word that step i adds. */
  function WordIndex(i: nat): (k: nat)
    ensures k < 16
  {
    if i < 16 then i else if i < 32 then (5 * i + 1) % 16 else if i < 48 then (3 * i + 5) % 16 else 7 * i % 16
  }

  /** How far step i rotates. */
  function Shift(i: nat): (s: nat)
    ensures 0 < s < 32
  {
    var column := i % 4;
    if i < 16 then if column == 0 then 7 else if column == 1 then 12 else if column == 2 then 17 else 22
    else if i < 32 then if column == 0 then 5 else if column == 1 then 9 else if column == 2 then 14 else 20
    else if i < 48 then if column == 0 then 4 else if column == 1 then 11 else if column == 2 then 16 else 23
    else if column == 0 then 6 else if column == 1 then 10 else if column == 2 then 15 else 21
  }

  /** T[i + 1]: the integer part of 2^32 times the absolute sine of i + 1. */
  function Sine(i: nat): word {
    if i < 16 then Sine1(i) else if i < 32 then Sine2(i) else if i < 48 then Sine3(i) else Sine4(i)
  }

  function Sine1(i: nat): word {
    match i
    case 0 => 0xD76AA478
    case 1 => 0xE8C7B756
    case 2 => 0x242070DB
    case 3 => 0xC1BDCEEE
    case 4 => 0xF57C0FAF
    case 5 => 0x4787C62A
    case 6 => 0xA8304613
    case 7 => 0xFD469501
    case 8 => 0x698098D8
    case 9 => 0x8B44F7AF
    case 10 => 0xFFFF5BB1
    case 11 => 0x895CD7BE
    case 12 => 0x6B901122
    case 13 => 0xFD987193
    case 14 => 0xA679438E
    case 15 => 0x49B40821
    case _ => 0
  }

  function Sine2(i: nat): word {
    match i
    case 16 => 0xF61E2562
    case 17 => 0xC040B340
    case 18 => 0x265E5A51
    case 19 => 0xE9B6C7AA
    case 20 => 0xD62F105D
    case 21 => 0x02441453
    case 22 => 0xD8A1E681
    case 23 => 0xE7D3FBC8
    case 24 => 0x21E1CDE6
    case 25 => 0xC33707D6
    case 26 => 0xF4D50D87
    case 27 => 0x455A14ED
    case 28 => 0xA9E3E905
    case 29 => 0xFCEFA3F8
    case 30 => 0x676F02D9
    case 31 => 0x8D2A4C8A
    case _ => 0
  }

  function Sine3(i: nat): word {
    match i
    case 32 => 0xFFFA3942
    case 33 => 0x8771F681
    case 34 => 0x6D9D6122
    case 35 => 0xFDE5380C
    case 36 => 0xA4BEEA44
    case 37 => 0x4BDECFA9
    case 38 => 0xF6BB4B60
    case 39 => 0xBEBFBC70
    case 40 => 0x289B7EC6
    case 41 => 0xEAA127FA
    case 42 => 0xD4EF3085
    case 43 => 0x04881D05
    case 44 => 0xD9D4D039
    case 45 => 0xE6DB99E5
    case 46 => 0x1FA27CF8
    case 47 => 0xC4AC5665
    case _ => 0
  }

  function Sine4(i: nat): word {
    match i
    case 48 => 0xF4292244
    case 49 => 0x432AFF97
    case 50 => 0xAB9423A7
    case 51 => 0xFC93A039
    case 52 => 0x655B59C3
    case 53 => 0x8F0CCC92
    case 54 => 0xFFEFF47D
    case 55 => 0x85845DD1
    case 56 => 0x6FA87E4F
    case 57 => 0xFE2CE6E0
    case 58 => 0xA3014314
    case 59 => 0x4E0811A1
    case 60 => 0xF7537E82
    case 61 => 0xBD3AF235
    case 62 => 0x2AD7D2BB
    case 63 => 0xEB86D391
    case _ => 0
  }

  /** X <<< s: a rotation of the 32 bits to the left. */
  function CircularShift(x: word, s: nat): word
    requires s < 32
  {
    x.RotateLeft(s)
  }

  /**
    Step i. The registers are listed in the order the step names them, so they move on by one place:
    the step after [ABCD k s i] is [DABC ...].
   */
  function Step(i: nat, st: State, x: seq<word>): State
    requires |x| == 16
  {
    State(st.d, NewWord(st.a, Aux(i, st.b, st.c, st.d), x[WordIndex(i)], Sine(i), Shift(i), st.b), st.b, st.c)
  }

  /** b + ((a + F(b,c,d) + X[k] + T[i]) <<< s), with the value of the auxiliary function given. */
  function NewWord(a: word, f: word, xk: word, t: word, s: nat, b: word): word
    requires s < 32
  {
    Plus(b, CircularShift(Sum(a, f, xk, t), s))
  }

  function Plus(b: word, r: word): word { b + r }
  function Sum(a: word, f: word, xk: word, t: word): word { a + f + xk + t }

  function Steps(i: nat, n: nat, st: State, x: seq<word>): State
    requires |x| == 16 && i <= n
    decreases n - i
  {
    if i == n then st else Steps(i + 1, n, Step(i, st, x), x)
  }

  /** The compression of one block: 64 steps, and the old state added. */
  function Compress(st: State, block: seq<octet>): State
    requires |block| == 64
  {
    AddState(st, Steps(0, 64, st, Words(block)))
  }

  function AddState(st: State, r: State): State {
    State(st.a + r.a, st.b + r.b, st.c + r.c, st.d + r.d)
  }

  // ---------- The code's form ----------

  function Rotate(x: word, n: nat): word
    requires 0 < n < 32
  {
    (x << n) | (x >> (32 - n))
  }

  function CodeF(x: word, y: word, z: word): word { z ^ (x & (y ^ z)) }
  function CodeG(x: word, y: word, z: word): word { y ^ (z & (x ^ y)) }
  function CodeH(x: word, y: word, z: word): word { x ^ y ^ z }
  function CodeI(x: word, y: word, z: word): word { y ^ (x | !z) }

  lemma RewrittenF(x: word, y: word, z: word)
    ensures CodeF(x, y, z) == F(x, y, z)
  {
    assert z ^ (x & (y ^ z)) == (x & y) | (!x & z);
  }

  lemma RewrittenG(x: word, y: word, z: word)
    ensures CodeG(x, y, z) == G(x, y, z)
  {
    assert y ^ (z & (x ^ y)) == (x & z) | (y & !z);
  }

  lemma Rotations1(x: word)
    ensures Rotate(x, 7) == CircularShift(x, 7)
    ensures Rotate(x, 12) == CircularShift(x, 12)
    ensures Rotate(x, 17) == CircularShift(x, 17)
    ensures Rotate(x, 22) == CircularShift(x, 22)
  {
    assert (x << 7) | (x >> 25) == x.RotateLeft(7);
    assert Rotate(x, 7) == (x << 7) | (x >> 25);
    assert (x << 12) | (x >> 20) == x.RotateLeft(12);
    assert Rotate(x, 12) == (x << 12) | (x >> 20);
    assert (x << 17) | (x >> 15) == x.RotateLeft(17);
    assert Rotate(x, 17) == (x << 17) | (x >> 15);
    assert (x << 22) | (x >> 10) == x.RotateLeft(22);
    assert Rotate(x, 22) == (x << 22) | (x >> 10);
  }

  lemma Rotations2(x: word)
    ensures Rotate(x, 5) == CircularShift(x, 5)
    ensures Rotate(x, 9) == CircularShift(x, 9)
    ensures Rotate(x, 14) == CircularShift(x, 14)
    ensures Rotate(x, 20) == CircularShift(x, 20)
  {
    assert (x << 5) | (x >> 27) == x.RotateLeft(5);
    assert Rotate(x, 5) == (x << 5) | (x >> 27);
    assert (x << 9) | (x >> 23) == x.RotateLeft(9);
    assert Rotate(x, 9) == (x << 9) | (x >> 23);
    assert (x << 14) | (x >> 18) == x.RotateLeft(14);
    assert Rotate(x, 14) == (x << 14) | (x >> 18);
    assert (x << 20) | (x >> 12) == x.RotateLeft(20);
    assert Rotate(x, 20) == (x << 20) | (x >> 12);
  }

  lemma Rotations3(x: word)
    ensures Rotate(x, 4) == CircularShift(x, 4)
    ensures Rotate(x, 11) == CircularShift(x, 11)
    ensures Rotate(x, 16) == CircularShift(x, 16)
    ensures Rotate(x, 23) == CircularShift(x, 23)
  {
    assert (x << 4) | (x >> 28) == x.RotateLeft(4);
    assert Rotate(x, 4) == (x << 4) | (x >> 28);
    assert (x << 11) | (x >> 21) == x.RotateLeft(11);
    assert Rotate(x, 11) == (x << 11) | (x >> 21);
    assert (x << 16) | (x >> 16) == x.RotateLeft(16);
    assert Rotate(x, 16) == (x << 16) | (x >> 16);
    assert (x << 23) | (x >> 9) == x.RotateLeft(23);
    assert Rotate(x, 23) == (x << 23) | (x >> 9);
  }

  lemma Rotations4(x: word)
    ensures Rotate(x, 6) == CircularShift(x, 6)
    ensures Rotate(x, 10) == CircularShift(x, 10)
    ensures Rotate(x, 15) == CircularShift(x, 15)
    ensures Rotate(x, 21) == CircularShift(x, 21)
  {
    assert (x << 6) | (x >> 26) == x.RotateLeft(6);
    assert Rotate(x, 6) == (x << 6) | (x >> 26);
    assert (x << 10) | (x >> 22) == x.RotateLeft(10);
    assert Rotate(x, 10) == (x << 10) | (x >> 22);
    assert (x << 15) | (x >> 17) == x.RotateLeft(15);
    assert Rotate(x, 15) == (x << 15) | (x >> 17);
    assert (x << 21) | (x >> 11) == x.RotateLeft(21);
    assert Rotate(x, 21) == (x << 21) | (x >> 11);
  }

  /** The shift-based rotation is the rotation of the standard, for every amount that a step uses. */
  lemma RotateIsRotateLeft(x: word, i: nat)
    ensures Rotate(x, Shift(i)) == CircularShift(x, Shift(i))
  {
    hide Rotate, CircularShift;
    Rotations1(x);
    Rotations2(x);
    Rotations3(x);
    Rotations4(x);
  }

  /** The macro P, with the value of its boolean function given. */
  function P(f: word, a: word, b: word, xk: word, s: nat, t: word): word
    requires 0 < s < 32
  {
    CodePlus(Rotate(CodeSum(a, f, xk, t), s), b)
  }

  // The macro's two assignments: a += F + X[k] + t, then a = S(a, s) + b.
  function CodeSum(a: word, f: word, xk: word, t: word): word { a + (f + xk + t) }
  function CodePlus(r: word, b: word): word { r + b }

  function CodeAux(i: nat, x: word, y: word, z: word): word {
    if i < 16 then CodeF(x, y, z) else if i < 32 then CodeG(x, y, z) else if i < 48 then CodeH(x, y, z) else CodeI(x, y, z)
  }

  lemma MacroTurnsSum(f: word, a: word, b: word, xk: word, s: nat, t: word)
    requires 0 < s < 32
    ensures P(f, a, b, xk, s, t) == Plus(b, Rotate(Sum(a, f, xk, t), s))
  {
    hide Rotate, Sum, Plus, CodeSum, CodePlus;
    SumAgrees(a, f, xk, t);
    PlusAgrees(b, Rotate(Sum(a, f, xk, t), s));
  }

  lemma SumAgrees(a: word, f: word, xk: word, t: word)
    ensures CodeSum(a, f, xk, t) == Sum(a, f, xk, t)
  {
    assert a + (f + xk + t) == a + f + xk + t;
  }

  lemma PlusAgrees(b: word, r: word)
    ensures CodePlus(r, b) == Plus(b, r)
  {
  }

  lemma MacroIsNewWord(f: word, a: word, b: word, xk: word, i: nat, t: word)
    ensures P(f, a, b, xk, Shift(i), t) == NewWord(a, f, xk, t, Shift(i), b)
  {
    hide P, Rotate, CircularShift, Shift, Plus, Sum;
    MacroTurnsSum(f, a, b, xk, Shift(i), t);
    RotateIsRotateLeft(Sum(a, f, xk, t), i);
  }

  /** One use of the macro is one step of the standard. */
  lemma MacroIsStep(i: nat, a: word, b: word, c: word, d: word, x: seq<word>)
    requires |x| == 16
    ensures State(d, P(CodeAux(i, b, c, d), a, b, x[WordIndex(i)], Shift(i), Sine(i)), b, c)
         == Step(i, State(a, b, c, d), x)
  {
    hide P, NewWord, CodeAux, Aux, WordIndex, Shift, Sine;
    CodeAuxIsAux(i, b, c, d);
    MacroIsNewWord(Aux(i, b, c, d), a, b, x[WordIndex(i)], i, Sine(i));
  }

  lemma CodeAuxIsAux(i: nat, x: word, y: word, z: word)
    ensures CodeAux(i, x, y, z) == Aux(i, x, y, z)
  {
    hide CodeF, F, CodeG, G;
    RewrittenF(x, y, z);
    RewrittenG(x, y, z);
  }

  lemma {:induction false} StepsSplit(i: nat, j: nat, n: nat, st: State, x: seq<word>)
    requires |x| == 16 && i <= j <= n
    ensures Steps(i, n, st, x) == Steps(j, n, Steps(i, j, st, x), x)
    decreases j - i
  {
    hide Step;
    if i == j {
    } else {
      StepsSplit(i + 1, j, n, Step(i, st, x), x);
    }
  }

  lemma FourSteps(i: nat, st: State, x: seq<word>)
    requires |x| == 16
    ensures Steps(i, i + 4, st, x) == Step(i + 3, Step(i + 2, Step(i + 1, Step(i, st, x), x), x), x)
  {
    hide Step;
    var s1 := Step(i, st, x);
    var s2 := Step(i + 1, s1, x);
    var s3 := Step(i + 2, s2, x);
    assert Steps(i, i + 4, st, x) == Steps(i + 1, i + 4, s1, x);
    assert Steps(i + 1, i + 4, s1, x) == Steps(i + 2, i + 4, s2, x);
    assert Steps(i + 2, i + 4, s2, x) == Steps(i + 3, i + 4, s3, x);
  }

  /** The macro as step i uses it. */
  function Use(i: nat, a: word, b: word, c: word, d: word, x: seq<word>): word
    requires |x| == 16
  {
    P(CodeAux(i, b, c, d), a, b, x[WordIndex(i)], Shift(i), Sine(i))
  }

  /** Four uses bring the registers back to their places and are four steps. */
  lemma FourUses(i: nat, a: word, b: word, c: word, d: word, x: seq<word>)
    requires |x| == 16
    ensures var a' := Use(i, a, b, c, d, x);
            var d' := Use(i + 1, d, a', b, c, x);
            var c' := Use(i + 2, c, d', a', b, x);
            var b' := Use(i + 3, b, c', d', a', x);
            Steps(i, i + 4, State(a, b, c, d), x) == State(a', b', c', d')
  {
    hide P, Step, CodeAux, WordIndex, Shift, Sine;
    var a' := Use(i, a, b, c, d, x);
    var d' := Use(i + 1, d, a', b, c, x);
    var c' := Use(i + 2, c, d', a', b, x);
    MacroIsStep(i, a, b, c, d, x);
    MacroIsStep(i + 1, d, a', b, c, x);
    MacroIsStep(i + 2, c, d', a', b, x);
    MacroIsStep(i + 3, b, c', d', a', x);
    FourSteps(i, State(a, b, c, d), x);
  }

  /** The constants of round one as the code writes them. */
  lemma TableOne()
    ensures WordIndex(0) == 0 && Shift(0) == 7 && Sine(0) == 0xD76AA478
    ensures WordIndex(1) == 1 && Shift(1) == 12 && Sine(1) == 0xE8C7B756
    ensures WordIndex(2) == 2 && Shift(2) == 17 && Sine(2) == 0x242070DB
    ensures WordIndex(3) == 3 && Shift(3) == 22 && Sine(3) == 0xC1BDCEEE
    ensures WordIndex(4) == 4 && Shift(4) == 7 && Sine(4) == 0xF57C0FAF
    ensures WordIndex(5) == 5 && Shift(5) == 12 && Sine(5) == 0x4787C62A
    ensures WordIndex(6) == 6 && Shift(6) == 17 && Sine(6) == 0xA8304613
    ensures WordIndex(7) == 7 && Shift(7) == 22 && Sine(7) == 0xFD469501
    ensures WordIndex(8) == 8 && Shift(8) == 7 && Sine(8) == 0x698098D8
    ensures WordIndex(9) == 9 && Shift(9) == 12 && Sine(9) == 0x8B44F7AF
    ensures WordIndex(10) == 10 && Shift(10) == 17 && Sine(10) == 0xFFFF5BB1
    ensures WordIndex(11) == 11 && Shift(11) == 22 && Sine(11) == 0x895CD7BE
    ensures WordIndex(12) == 12 && Shift(12) == 7 && Sine(12) == 0x6B901122
    ensures WordIndex(13) == 13 && Shift(13) == 12 && Sine(13) == 0xFD987193
    ensures WordIndex(14) == 14 && Shift(14) == 17 && Sine(14) == 0xA679438E
    ensures WordIndex(15) == 15 && Shift(15) == 22 && Sine(15) == 0x49B40821
  {
  }

  /** The constants of round two as the code writes them. */
  lemma TableTwo()
    ensures WordIndex(16) == 1 && Shift(16) == 5 && Sine(16) == 0xF61E2562
    ensures WordIndex(17) == 6 && Shift(17) == 9 && Sine(17) == 0xC040B340
    ensures WordIndex(18) == 11 && Shift(18) == 14 && Sine(18) == 0x265E5A51
    ensures WordIndex(19) == 0 && Shift(19) == 20 && Sine(19) == 0xE9B6C7AA
    ensures WordIndex(20) == 5 && Shift(20) == 5 && Sine(20) == 0xD62F105D
    ensures WordIndex(21) == 10 && Shift(21) == 9 && Sine(21) == 0x02441453
    ensures WordIndex(22) == 15 && Shift(22) == 14 && Sine(22) == 0xD8A1E681
    ensures WordIndex(23) == 4 && Shift(23) == 20 && Sine(23) == 0xE7D3FBC8
    ensures WordIndex(24) == 9 && Shift(24) == 5 && Sine(24) == 0x21E1CDE6
    ensures WordIndex(25) == 14 && Shift(25) == 9 && Sine(25) == 0xC33707D6
    ensures WordIndex(26) == 3 && Shift(26) == 14 && Sine(26) == 0xF4D50D87
    ensures WordIndex(27) == 8 && Shift(27) == 20 && Sine(27) == 0x455A14ED
    ensures WordIndex(28) == 13 && Shift(28) == 5 && Sine(28) == 0xA9E3E905
    ensures WordIndex(29) == 2 && Shift(29) == 9 && Sine(29) == 0xFCEFA3F8
    ensures WordIndex(30) == 7 && Shift(30) == 14 && Sine(30) == 0x676F02D9
    ensures WordIndex(31) == 12 && Shift(31) == 20 && Sine(31) == 0x8D2A4C8A
  {
  }

  /** The constants of round three as the code writes them. */
  lemma TableThree()
    ensures WordIndex(32) == 5 && Shift(32) == 4 && Sine(32) == 0xFFFA3942
    ensures WordIndex(33) == 8 && Shift(33) == 11 && Sine(33) == 0x8771F681
    ensures WordIndex(34) == 11 && Shift(34) == 16 && Sine(34) == 0x6D9D6122
    ensures WordIndex(35) == 14 && Shift(35) == 23 && Sine(35) == 0xFDE5380C
    ensures WordIndex(36) == 1 && Shift(36) == 4 && Sine(36) == 0xA4BEEA44
    ensures WordIndex(37) == 4 && Shift(37) == 11 && Sine(37) == 0x4BDECFA9
    ensures WordIndex(38) == 7 && Shift(38) == 16 && Sine(38) == 0xF6BB4B60
    ensures WordIndex(39) == 10 && Shift(39) == 23 && Sine(39) == 0xBEBFBC70
    ensures WordIndex(40) == 13 && Shift(40) == 4 && Sine(40) == 0x289B7EC6
    ensures WordIndex(41) == 0 && Shift(41) == 11 && Sine(41) == 0xEAA127FA
    ensures WordIndex(42) == 3 && Shift(42) == 16 && Sine(42) == 0xD4EF3085
    ensures WordIndex(43) == 6 && Shift(43) == 23 && Sine(43) == 0x04881D05
    ensures WordIndex(44) == 9 && Shift(44) == 4 && Sine(44) == 0xD9D4D039
    ensures WordIndex(45) == 12 && Shift(45) == 11 && Sine(45) == 0xE6DB99E5
    ensures WordIndex(46) == 15 && Shift(46) == 16 && Sine(46) == 0x1FA27CF8
    ensures WordIndex(47) == 2 && Shift(47) == 23 && Sine(47) == 0xC4AC5665
  {
  }

  /** The constants of round four as the code writes them. */
  lemma TableFour()
    ensures WordIndex(48) == 0 && Shift(48) == 6 && Sine(48) == 0xF4292244
    ensures WordIndex(49) == 7 && Shift(49) == 10 && Sine(49) == 0x432AFF97
    ensures WordIndex(50) == 14 && Shift(50) == 15 && Sine(50) == 0xAB9423A7
    ensures WordIndex(51) == 5 && Shift(51) == 21 && Sine(51) == 0xFC93A039
    ensures WordIndex(52) == 12 && Shift(52) == 6 && Sine(52) == 0x655B59C3
    ensures WordIndex(53) == 3 && Shift(53) == 10 && Sine(53) == 0x8F0CCC92
    ensures WordIndex(54) == 10 && Shift(54) == 15 && Sine(54) == 0xFFEFF47D
    ensures WordIndex(55) == 1 && Shift(55) == 21 && Sine(55) == 0x85845DD1
    ensures WordIndex(56) == 8 && Shift(56) == 6 && Sine(56) == 0x6FA87E4F
    ensures WordIndex(57) == 15 && Shift(57) == 10 && Sine(57) == 0xFE2CE6E0
    ensures WordIndex(58) == 6 && Shift(58) == 15 && Sine(58) == 0xA3014314
    ensures WordIndex(59) == 13 && Shift(59) == 21 && Sine(59) == 0x4E0811A1
    ensures WordIndex(60) == 4 && Shift(60) == 6 && Sine(60) == 0xF7537E82
    ensures WordIndex(61) == 11 && Shift(61) == 10 && Sine(61) == 0xBD3AF235
    ensures WordIndex(62) == 2 && Shift(62) == 15 && Sine(62) == 0x2AD7D2BB
    ensures WordIndex(63) == 9 && Shift(63) == 21 && Sine(63) == 0xEB86D391
  {
  }

  method RoundOne(st: State, x: seq<word>) returns (r: State)
    requires |x| == 16
    ensures r == Steps(0, 16, st, x)
  {
    TableOne();
    hide P, CodeF, CodeG, CodeH, CodeI, Step, Steps, WordIndex, Shift, Sine;
    var A, B, C, D := st.a, st.b, st.c, st.d;
    ghost var s0 := st;
    A := P(CodeF(B, C, D), A, B, x[0], 7, 0xD76AA478);
    D := P(CodeF(A, B, C), D, A, x[1], 12, 0xE8C7B756);
    C := P(CodeF(D, A, B), C, D, x[2], 17, 0x242070DB);
    B := P(CodeF(C, D, A), B, C, x[3], 22, 0xC1BDCEEE);
    FourUses(0, s0.a, s0.b, s0.c, s0.d, x);
    assert State(A, B, C, D) == Steps(0, 4, st, x);
    s0 := State(A, B, C, D);
    A := P(CodeF(B, C, D), A, B, x[4], 7, 0xF57C0FAF);
    D := P(CodeF(A, B, C), D, A, x[5], 12, 0x4787C62A);
    C := P(CodeF(D, A, B), C, D, x[6], 17, 0xA8304613);
    B := P(CodeF(C, D, A), B, C, x[7], 22, 0xFD469501);
    FourUses(4, s0.a, s0.b, s0.c, s0.d, x);
    StepsSplit(0, 4, 8, st, x);
    assert State(A, B, C, D) == Steps(0, 8, st, x);
    s0 := State(A, B, C, D);
    A := P(CodeF(B, C, D), A, B, x[8], 7, 0x698098D8);
    D := P(CodeF(A, B, C), D, A, x[9], 12, 0x8B44F7AF);
    C := P(CodeF(D, A, B), C, D, x[10], 17, 0xFFFF5BB1);
    B := P(CodeF(C, D, A), B, C, x[11], 22, 0x895CD7BE);
    FourUses(8, s0.a, s0.b, s0.c, s0.d, x);
    StepsSplit(0, 8, 12, st, x);
    assert State(A, B, C, D) == Steps(0, 12, st, x);
    s0 := State(A, B, C, D);
    A := P(CodeF(B, C, D), A, B, x[12], 7, 0x6B901122);
    D := P(CodeF(A, B, C), D, A, x[13], 12, 0xFD987193);
    C := P(CodeF(D, A, B), C, D, x[14], 17, 0xA679438E);
    B := P(CodeF(C, D, A), B, C, x[15], 22, 0x49B40821);
    FourUses(12, s0.a, s0.b, s0.c, s0.d, x);
    StepsSplit(0, 12, 16, st, x);
    assert State(A, B, C, D) == Steps(0, 16, st, x);
    r := State(A, B, C, D);
  }

  method RoundTwo(st: State, x: seq<word>) returns (r: State)
    requires |x| == 16
    ensures r == Steps(16, 32, st, x)
  {
    TableTwo();
    hide P, CodeF, CodeG, CodeH, CodeI, Step, Steps, WordIndex, Shift, Sine;
    var A, B, C, D := st.a, st.b, st.c, st.d;
    ghost var s0 := st;
    A := P(CodeG(B, C, D), A, B, x[1], 5, 0xF61E2562);
    D := P(CodeG(A, B, C), D, A, x[6], 9, 0xC040B340);
    C := P(CodeG(D, A, B), C, D, x[11], 14, 0x265E5A51);
    B := P(CodeG(C, D, A), B, C, x[0], 20, 0xE9B6C7AA);
    FourUses(16, s0.a, s0.b, s0.c, s0.d, x);
    assert State(A, B, C, D) == Steps(16, 20, st, x);
    s0 := State(A, B, C, D);
    A := P(CodeG(B, C, D), A, B, x[5], 5, 0xD62F105D);
    D := P(CodeG(A, B, C), D, A, x[10], 9, 0x02441453);
    C := P(CodeG(D, A, B), C, D, x[15], 14, 0xD8A1E681);
    B := P(CodeG(C, D, A), B, C, x[4], 20, 0xE7D3FBC8);
    FourUses(20, s0.a, s0.b, s0.c, s0.d, x);
    StepsSplit(16, 20, 24, st, x);
    assert State(A, B, C, D) == Steps(16, 24, st, x);
    s0 := State(A, B, C, D);
    A := P(CodeG(B, C, D), A, B, x[9], 5, 0x21E1CDE6);
    D := P(CodeG(A, B, C), D, A, x[14], 9, 0xC33707D6);
    C := P(CodeG(D, A, B), C, D, x[3], 14, 0xF4D50D87);
    B := P(CodeG(C, D, A), B, C, x[8], 20, 0x455A14ED);
    FourUses(24, s0.a, s0.b, s0.c, s0.d, x);
    StepsSplit(16, 24, 28, st, x);
    assert State(A, B, C, D) == Steps(16, 28, st, x);
    s0 := State(A, B, C, D);
    A := P(CodeG(B, C, D), A, B, x[13], 5, 0xA9E3E905);
    D := P(CodeG(A, B, C), D, A, x[2], 9, 0xFCEFA3F8);
    C := P(CodeG(D, A, B), C, D, x[7], 14, 0x676F02D9);
    B := P(CodeG(C, D, A), B, C, x[12], 20, 0x8D2A4C8A);
    FourUses(28, s0.a, s0.b, s0.c, s0.d, x);
    StepsSplit(16, 28, 32, st, x);
    assert State(A, B, C, D) == Steps(16, 32, st, x);
    r := State(A, B, C, D);
  }

  method RoundThree(st: State, x: seq<word>) returns (r: State)
    requires |x| == 16
    ensures r == Steps(32, 48, st, x)
  {
    TableThree();
    hide P, CodeF, CodeG, CodeH, CodeI, Step, Steps, WordIndex, Shift, Sine;
    var A, B, C, D := st.a, st.b, st.c, st.d;
    ghost var s0 := st;
    A := P(CodeH(B, C, D), A, B, x[5], 4, 0xFFFA3942);
    D := P(CodeH(A, B, C), D, A, x[8], 11, 0x8771F681);
    C := P(CodeH(D, A, B), C, D, x[11], 16, 0x6D9D6122);
    B := P(CodeH(C, D, A), B, C, x[14], 23, 0xFDE5380C);
    FourUses(32, s0.a, s0.b, s0.c, s0.d, x);
    assert State(A, B, C, D) == Steps(32, 36, st, x);
    s0 := State(A, B, C, D);
    A := P(CodeH(B, C, D), A, B, x[1], 4, 0xA4BEEA44);
    D := P(CodeH(A, B, C), D, A, x[4], 11, 0x4BDECFA9);
    C := P(CodeH(D, A, B), C, D, x[7], 16, 0xF6BB4B60);
    B := P(CodeH(C, D, A), B, C, x[10], 23, 0xBEBFBC70);
    FourUses(36, s0.a, s0.b, s0.c, s0.d, x);
    StepsSplit(32, 36, 40, st, x);
    assert State(A, B, C, D) == Steps(32, 40, st, x);
    s0 := State(A, B, C, D);
    A := P(CodeH(B, C, D), A, B, x[13], 4, 0x289B7EC6);
    D := P(CodeH(A, B, C), D, A, x[0], 11, 0xEAA127FA);
    C := P(CodeH(D, A, B), C, D, x[3], 16, 0xD4EF3085);
    B := P(CodeH(C, D, A), B, C, x[6], 23, 0x04881D05);
    FourUses(40, s0.a, s0.b, s0.c, s0.d, x);
    StepsSplit(32, 40, 44, st, x);
    assert State(A, B, C, D) == Steps(32, 44, st, x);
    s0 := State(A, B, C, D);
    A := P(CodeH(B, C, D), A, B, x[9], 4, 0xD9D4D039);
    D := P(CodeH(A, B, C), D, A, x[12], 11, 0xE6DB99E5);
    C := P(CodeH(D, A, B), C, D, x[15], 16, 0x1FA27CF8);
    B := P(CodeH(C, D, A), B, C, x[2], 23, 0xC4AC5665);
    FourUses(44, s0.a, s0.b, s0.c, s0.d, x);
    StepsSplit(32, 44, 48, st, x);
    assert State(A, B, C, D) == Steps(32, 48, st, x);
    r := State(A, B, C, D);
  }

  method RoundFour(st: State, x: seq<word>) returns (r: State)
    requires |x| == 16
    ensures r == Steps(48, 64, st, x)
  {
    TableFour();
    hide P, CodeF, CodeG, CodeH, CodeI, Step, Steps, WordIndex, Shift, Sine;
    var A, B, C, D := st.a, st.b, st.c, st.d;
    ghost var s0 := st;
    A := P(CodeI(B, C, D), A, B, x[0], 6, 0xF4292244);
    D := P(CodeI(A, B, C), D, A, x[7], 10, 0x432AFF97);
    C := P(CodeI(D, A, B), C, D, x[14], 15, 0xAB9423A7);
    B := P(CodeI(C, D, A), B, C, x[5], 21, 0xFC93A039);
    FourUses(48, s0.a, s0.b, s0.c, s0.d, x);
    assert State(A, B, C, D) == Steps(48, 52, st, x);
    s0 := State(A, B, C, D);
    A := P(CodeI(B, C, D), A, B, x[12], 6, 0x655B59C3);
    D := P(CodeI(A, B, C), D, A, x[3], 10, 0x8F0CCC92);
    C := P(CodeI(D, A, B), C, D, x[10], 15, 0xFFEFF47D);
    B := P(CodeI(C, D, A), B, C, x[1], 21, 0x85845DD1);
    FourUses(52, s0.a, s0.b, s0.c, s0.d, x);
    StepsSplit(48, 52, 56, st, x);
    assert State(A, B, C, D) == Steps(48, 56, st, x);
    s0 := State(A, B, C, D);
    A := P(CodeI(B, C, D), A, B, x[8], 6, 0x6FA87E4F);
    D := P(CodeI(A, B, C), D, A, x[15], 10, 0xFE2CE6E0);
    C := P(CodeI(D, A, B), C, D, x[6], 15, 0xA3014314);
    B := P(CodeI(C, D, A), B, C, x[13], 21, 0x4E0811A1);
    FourUses(56, s0.a, s0.b, s0.c, s0.d, x);
    StepsSplit(48, 56, 60, st, x);
    assert State(A, B, C, D) == Steps(48, 60, st, x);
    s0 := State(A, B, C, D);
    A := P(CodeI(B, C, D), A, B, x[4], 6, 0xF7537E82);
    D := P(CodeI(A, B, C), D, A, x[11], 10, 0xBD3AF235);
    C := P(CodeI(D, A, B), C, D, x[2], 15, 0x2AD7D2BB);
    B := P(CodeI(C, D, A), B, C, x[9], 21, 0xEB86D391);
    FourUses(60, s0.a, s0.b, s0.c, s0.d, x);
    StepsSplit(48, 60, 64, st, x);
    assert State(A, B, C, D) == Steps(48, 64, st, x);
    r := State(A, B, C, D);
  }

  /** md5_process: the unrolled rounds compute the compression of the standard for every state and block. */
  method Process(st: State, block: seq<octet>) returns (r: State)
    requires |block| == 64
    ensures r == Compress(st, block)
  {
    hide Steps, Words, AddState;
    var x := Words(block);
    r := RoundOne(st, x);
    r := RoundTwo(r, x);
    r := RoundThree(r, x);
    r := RoundFour(r, x);
    StepsSplit(0, 16, 32, st, x);
    StepsSplit(0, 32, 48, st, x);
    StepsSplit(0, 48, 64, st, x);
    r := AddState(st, r);
  }
}
