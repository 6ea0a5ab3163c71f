/** The MD5 context as it is updated in place: a two-word byte counter, the state and a buffer for a partial block. */
module Md5 {
  import opened Md5Compress
  import opened Md5Spec
  import opened Md5Words

  class Context {
    var total0: nat // total[0], 32 bits
    var total1: nat // total[1], 32 bits
    var state: State
    const buffer: array<octet>
    ghost var message: seq<octet> // everything passed to Update since Starts

    ghost predicate Valid()
      reads this, buffer
    {
      && buffer.Length == 64
      && total0 == |message| % WORD
      && total1 == |message| / WORD % WORD
      && state == Fold(INIT, message)
      && buffer[..|message| % 64] == Tail(message)
    }

    /** md5_starts */
    constructor ()
      ensures Valid() && message == [] && fresh(buffer)
    {
      total0, total1 := 0, 0;
      state := INIT;
      buffer := new octet[64];
      message := [];
    }

    /** memcpy into the buffer. */
    method Copy(at: nat, part: seq<octet>)
      requires buffer.Length == 64 && at + |part| <= 64
      modifies buffer
      ensures buffer[..at] == old(buffer[..at]) && buffer[at..at + |part|] == part
    {
      var i := 0;
      while i < |part|
        invariant 0 <= i <= |part|
        invariant buffer[..at] == old(buffer[..at]) && buffer[at..at + i] == part[..i]
      {
        buffer[at + i] := part[i];
        i := i + 1;
      }
    }

    method Count(length: nat)
      requires 0 < length < WORD && total0 == |message| % WORD && total1 == |message| / WORD % WORD
      modifies this`total0, this`total1
      ensures total0 == (|message| + length) % WORD && total1 == (|message| + length) / WORD % WORD
    {
      CounterAdds(|message|, length);
      total0 := (total0 + length) % WORD;
      if total0 < length {
        total1 := (total1 + 1) % WORD;
      }
    }

    /** The buffered tail of m, filled up to a block and processed. */
    method Complete(ghost m: seq<octet>, left: nat, part: seq<octet>)
      requires buffer.Length == 64 && left == |Tail(m)| && left + |part| == 64
      requires buffer[..left] == Tail(m) && state == Fold(INIT, m)
      modifies buffer, this`state
      ensures state == Fold(INIT, m + part)
    {
      hide Fold, Compress, Tail, INIT;
      Copy(left, part);
      assert buffer[..] == buffer[..left] + buffer[left..left + |part|];
      AbsorbFill(INIT, m, part);
      state := Process(state, buffer[..]);
    }

    /** The block loop: whole blocks straight from the input. m is the message in front of the input. */
    method Blocks(ghost m: seq<octet>, input: seq<octet>, start: nat, ghost left: nat) returns (pos: nat)
      requires start <= |input| && (|m| + start) % 64 == left && (left == 0 || |input| - start < 64)
      requires state == Fold(INIT, m + input[..start])
      modifies this`state
      ensures start <= pos <= |input| && |input| - pos < 64 && (|m| + pos) % 64 == left && (left != 0 ==> pos == start)
      ensures state == Fold(INIT, m + input[..pos])
    {
      hide Fold, Compress, INIT;
      pos := start;
      while |input| - pos >= 64
        invariant start <= pos <= |input| && (|m| + pos) % 64 == left && (left != 0 ==> pos == start)
        invariant state == Fold(INIT, m + input[..pos])
      {
        ghost var before := m + input[..pos];
        var block := input[pos..pos + 64];
        AbsorbBlock(INIT, before, block);
        assert m + input[..pos + 64] == before + block;
        state := Process(state, block);
        pos := pos + 64;
      }
    }

    /** The bytes left over go behind what is buffered. */
    method Keep(ghost m: seq<octet>, left: nat, rest: seq<octet>)
      requires buffer.Length == 64 && left == |Tail(m)| && left + |rest| < 64
      requires buffer[..left] == Tail(m) && state == Fold(INIT, m)
      modifies buffer
      ensures state == Fold(INIT, m + rest)
      ensures |Tail(m + rest)| < 64 && buffer[..|Tail(m + rest)|] == Tail(m + rest)
    {
      hide Fold, Tail, INIT;
      AbsorbPartial(INIT, m, rest);
      if |rest| != 0 {
        Copy(left, rest);
        assert buffer[..left + |rest|] == buffer[..left] + buffer[left..left + |rest|];
      }
    }

    /** md5_update: however a message is cut into pieces, the context depends on the whole only. */
    method Update(input: seq<octet>)
      requires Valid() && |input| < WORD
      modifies this, buffer
      ensures Valid() && message == old(message) + input
    {
      hide Fold, Compress, Tail, INIT;
      if |input| == 0 {
        assert message + input == message;
        return;
      }
      var left := total0 % 64;
      TotalModBlock(|message|);
      TailIsShort(message);
      Count(|input|);
      Absorb(message, input, left);
      message := message + input;
    }

    method Absorb(ghost m: seq<octet>, input: seq<octet>, buffered: nat)
      requires buffer.Length == 64 && buffered == |m| % 64
      requires buffer[..buffered] == Tail(m) && state == Fold(INIT, m)
      modifies buffer, this`state
      ensures state == Fold(INIT, m + input)
      ensures |Tail(m + input)| < 64 && buffer[..|Tail(m + input)|] == Tail(m + input)
    {
      hide Fold, Compress, Tail, INIT;
      var left, fill, pos := buffered, 64 - buffered, 0;
      assert m + input[..0] == m;
      if left != 0 && |input| >= fill {
        Complete(m, left, input[..fill]);
        pos := fill;
        left := 0;
      }
      pos := Blocks(m, input, pos, left);
      assert left != 0 ==> m + input[..pos] == m;
      Keep(m + input[..pos], left, input[pos..]);
      assert (m + input[..pos]) + input[pos..] == m + input;
    }

    /** md5_finish: the digest of everything passed to Update. The context is used up. */
    method Finish() returns (digest: seq<octet>)
      requires Valid()
      modifies this, buffer
      ensures Valid() && digest == Digest(old(message))
    {
      hide Fold, Compress, Tail, INIT, LengthBytes, PutWord, Zeros, PadZeros, Padding;
      ghost var m := message;
      var msglen := EncodeLength();
      var last := total0 % 64;
      var padn := if last < 56 then 56 - last else 120 - last;
      PaddingCount(|m|, last);
      var padding := Table();
      Update(padding[..padn]);
      Update(msglen);
      PaddedInTwoPieces(m, padn, msglen);
      digest := PutWord(state.a) + PutWord(state.b) + PutWord(state.c) + PutWord(state.d);
    }

    /** The length in bits, from the two words of the counter. */
    method EncodeLength() returns (msglen: seq<octet>)
      requires total0 == |message| % WORD && total1 == |message| / WORD % WORD
      ensures msglen == LengthBytes(|message|)
    {
      hide PutWord, Left3, Right29, Or, Value, AsWord;
      var t0, t1 := AsWord(total0), AsWord(total1);
      ValueOfWord(total0);
      ValueOfWord(total1);
      ShiftedCounter(|message|, t0, t1);
      var high := Or(Right29(t0), Left3(t1));
      var low := Left3(t0);
      msglen := PutWord(low) + PutWord(high);
    }
  }

  lemma TotalModBlock(n: nat)
    ensures n % WORD % 64 == n % 64
  {
  }

  lemma PaddingCount(n: nat, last: nat)
    requires last == n % WORD % 64
    ensures last == n % 64 && PadZeros(n) == (if last < 56 then 56 - last else 120 - last) - 1
  {
  }

  /** The two last updates append the padding. */
  lemma PaddedInTwoPieces(m: seq<octet>, padn: nat, msglen: seq<octet>)
    requires padn == 1 + PadZeros(|m|) && msglen == LengthBytes(|m|)
    ensures (m + ([0x80] + Zeros(padn - 1))) + msglen == m + Padding(|m|)
  {
    hide LengthBytes, Zeros, PadZeros;
  }

  /** md5_padding */
  function Table(): (r: seq<octet>)
    ensures |r| == 64 && forall n :: 0 < n <= 64 ==> r[..n] == [0x80] + Zeros(n - 1)
  {
    [0x80] + Zeros(63)
  }

  /** Two ways to cut a message give one digest. */
  method DigestOfPieces(pieces: seq<seq<octet>>) returns (digest: seq<octet>)
    requires forall k :: 0 <= k < |pieces| ==> |pieces[k]| < WORD
    ensures digest == Digest(Joined(pieces))
  {
    hide Digest;
    var ctx := new Context();
    for i := 0 to |pieces|
      invariant ctx.Valid() && fresh(ctx) && fresh(ctx.buffer)
      invariant ctx.message + Joined(pieces[i..]) == Joined(pieces)
    {
      assert pieces[i..][1..] == pieces[i + 1..];
      assert ctx.message + (pieces[i] + Joined(pieces[i + 1..])) == (ctx.message + pieces[i]) + Joined(pieces[i + 1..]);
      ctx.Update(pieces[i]);
    }
    assert ctx.message + [] == ctx.message;
    digest := ctx.Finish();
  }

  function Joined(pieces: seq<seq<octet>>): seq<octet> {
    if pieces == [] then [] else pieces[0] + Joined(pieces[1..])
  }
}
