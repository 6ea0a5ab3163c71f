/** The number a 32-bit word stands for, and what shifting and joining words does to it. */
module Md5Words {

  const WORD: nat := 0x1_0000_0000

  function Value(w: bv32): (n: nat)
    ensures n < WORD
  {
    w as nat
  }

  function Twice(w: bv32): bv32 {
    w << 1
  }

  function TwicePlusOne(w: bv32): bv32 {
    (w << 1) | 1
  }

  function TopBit(w: bv32): bv32 {
    w >> 31
  }

  /** The word moved up by one bit, with a new lowest bit. */
  function Push(w: bv32, b: bool): bv32 {
    if b then TwicePlusOne(w) else Twice(w)
  }

  function Bit(b: bool): nat {
    if b then 1 else 0
  }

  lemma DoubledValue(w: bv32)
    ensures 2 * (w as nat) == 0x1_0000_0000 * ((w >> 31) as nat) + ((w << 1) as nat)
  {
  }

  lemma TwiceValue(w: bv32)
    ensures 2 * (w as nat) == WORD * (TopBit(w) as nat) + Twice(w) as nat
  {
    DoubledValue(w);
  }

  lemma LowestBitValue(w: bv32)
    ensures ((w << 1) | 1) as nat == (w << 1) as nat + 1
  {
  }

  lemma TwicePlusOneValue(w: bv32)
    ensures TwicePlusOne(w) as nat == Twice(w) as nat + 1
  {
    var odd, even := (w << 1) | 1, w << 1;
    LowestBitValue(w);
    assert odd as nat == even as nat + 1;
    assert TwicePlusOne(w) == odd;
    assert Twice(w) == even;
  }

  lemma PushValue(w: bv32, b: bool)
    ensures Value(Push(w, b)) == 2 * Value(w) + Bit(b) - WORD * Value(TopBit(w))
  {
    hide Twice, TwicePlusOne, TopBit;
    TwiceValue(w);
    TwicePlusOneValue(w);
  }

  /** Every number below 2^32 is the value of a word. */
  lemma {:induction false} WordFor(n: nat) returns (w: bv32)
    requires n < WORD
    ensures Value(w) == n
  {
    hide Push, TopBit, Value;
    if n == 0 {
      w := 0;
      ValueOfZero();
    } else {
      var half := WordFor(n / 2);
      w := Push(half, n % 2 == 1);
      PushedHalf(half, n);
    }
  }

  lemma ValueOfZero()
    ensures Value(0) == 0
  {
  }

  lemma PushedHalf(half: bv32, n: nat)
    requires n < WORD && Value(half) == n / 2
    ensures Value(Push(half, n % 2 == 1)) == n
  {
    hide Push, TopBit, Value;
    PushValue(half, n % 2 == 1);
  }

  function AsWord(n: nat): bv32
    requires n < WORD
  {
    n as bv32
  }

  lemma WordOfValue(w: bv32)
    ensures AsWord(Value(w)) == w
  {
  }

  /** So converting a number and taking the value gives the number. */
  lemma ValueOfWord(n: nat)
    requires n < WORD
    ensures Value(AsWord(n)) == n
  {
    hide AsWord;
    var w := WordFor(n);
    WordOfValue(w);
  }

  // ---------- The shifts of the bit count ----------

  function Right29(x: bv32): bv32 {
    x >> 29
  }

  function Left3(x: bv32): bv32 {
    x << 3
  }

  function Or(x: bv32, y: bv32): bv32 {
    x | y
  }

  lemma ShiftedValue(x: bv32)
    ensures 8 * (x as nat) == 0x1_0000_0000 * ((x >> 29) as nat) + ((x << 3) as nat)
  {
  }

  lemma ShiftsValue(x: bv32)
    ensures 8 * (x as nat) == WORD * (Right29(x) as nat) + Left3(x) as nat
  {
    ShiftedValue(x);
  }

  /** Shifting right by 29 divides; shifting left by 3 multiplies and drops what does not fit. */
  lemma ShiftsAreArithmetic(x: bv32)
    ensures Value(Right29(x)) == Value(x) / 0x2000_0000
    ensures Value(Left3(x)) == Value(x) * 8 % WORD
  {
    hide Right29, Left3;
    ShiftsValue(x);
    Quotient(x as nat, Right29(x) as nat, Left3(x) as nat);
  }

  lemma Quotient(v: nat, high: nat, low: nat)
    requires 8 * v == WORD * high + low && low < WORD
    ensures high == v / 0x2000_0000 && low == v * 8 % WORD
  {
  }

  lemma JoinedBits(x: bv32, y: bv32)
    ensures var b2, b1, b0 := x & 0x8000_0000 != 0, x & 0x4000_0000 != 0, x & 0x2000_0000 != 0;
            Or(Right29(x), Left3(y)) == Push(Push(Push(y, b2), b1), b0)
  {
  }

  lemma RightBits(x: bv32)
    ensures var b2, b1, b0 := x & 0x8000_0000 != 0, x & 0x4000_0000 != 0, x & 0x2000_0000 != 0;
            Right29(x) == Push(Push(Push(0, b2), b1), b0)
  {
  }

  lemma LeftBits(y: bv32)
    ensures Left3(y) == Push(Push(Push(y, false), false), false)
  {
  }

  lemma SameTopBits(y: bv32, b2: bool, b1: bool)
    ensures TopBit(Push(y, b2)) == TopBit(Push(y, false))
    ensures TopBit(Push(Push(y, b2), b1)) == TopBit(Push(Push(y, false), false))
  {
  }

  lemma SmallTopBits(b2: bool, b1: bool)
    ensures TopBit(0) == 0 && TopBit(Push(0, b2)) == 0 && TopBit(Push(Push(0, b2), b1)) == 0
  {
  }

  lemma PushedValue(y: bv32, b2: bool, b1: bool, b0: bool)
    ensures Value(Push(Push(Push(y, b2), b1), b0))
         == 8 * Value(y) + 4 * Bit(b2) + 2 * Bit(b1) + Bit(b0)
            - WORD * (4 * Value(TopBit(y)) + 2 * Value(TopBit(Push(y, b2))) + Value(TopBit(Push(Push(y, b2), b1))))
  {
    hide Push, TopBit, Value;
    PushValue(y, b2);
    PushValue(Push(y, b2), b1);
    PushValue(Push(Push(y, b2), b1), b0);
  }

  /** The bits pushed in add to what the shifted word has without them. */
  lemma PushedSum(y: bv32, b2: bool, b1: bool, b0: bool)
    ensures Value(Push(Push(Push(y, b2), b1), b0))
         == Value(Push(Push(Push(y, false), false), false)) + 4 * Bit(b2) + 2 * Bit(b1) + Bit(b0)
  {
    hide Push, TopBit, Value;
    SameTopBits(y, b2, b1);
    PushedValue(y, b2, b1, b0);
    PushedValue(y, false, false, false);
  }

  lemma PushedOnZero(b2: bool, b1: bool, b0: bool)
    ensures Value(Push(Push(Push(0, b2), b1), b0)) == 4 * Bit(b2) + 2 * Bit(b1) + Bit(b0)
  {
    hide Push, TopBit, Value;
    SmallTopBits(b2, b1);
    ValueOfZero();
    PushedValue(0, b2, b1, b0);
  }

  /** The two shifted words have no bit in common, so joining them is adding their values. */
  lemma OrIsPlus(x: bv32, y: bv32)
    ensures Value(Or(Right29(x), Left3(y))) == Value(Right29(x)) + Value(Left3(y))
  {
    hide Push, Right29, Left3, Or, Value;
    var b2, b1, b0 := x & 0x8000_0000 != 0, x & 0x4000_0000 != 0, x & 0x2000_0000 != 0;
    JoinedBits(x, y);
    RightBits(x);
    LeftBits(y);
    PushedSum(y, b2, b1, b0);
    PushedOnZero(b2, b1, b0);
  }
}
