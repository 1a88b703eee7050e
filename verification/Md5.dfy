/**
 The MD5 context: bytes are buffered until a block is full, the length is kept in
 two 32-bit words, and the final call pads with two more updates. The transform
 takes the sixteen little-endian words of a block.
 */
module Md5 {
  import opened Basics
  import opened DigestSpec

  type WordTransform = (State, seq<Word>) -> State

  const INITIAL: State := [0x67452301, 0xefcdab89, 0x98badcfe, 0x10325476]

  function ByBytes(t: WordTransform): Transform {
    (h, block) => if |block| % 4 == 0 then t(h, Decoded(block, true)) else h
  }

  /** The four words of section 3.3 of RFC 1321, which lists their bytes with the low one first */
  lemma InitialBytes()
    ensures Encoded(INITIAL, true) == [0x01, 0x23, 0x45, 0x67, 0x89, 0xab, 0xcd, 0xef,
                                       0xfe, 0xdc, 0xba, 0x98, 0x76, 0x54, 0x32, 0x10]
  {
    assert LittleEndian(0x67452301) == [0x01, 0x23, 0x45, 0x67] && LittleEndian(0xefcdab89) == [0x89, 0xab, 0xcd, 0xef];
    assert LittleEndian(0x98badcfe) == [0xfe, 0xdc, 0xba, 0x98] && LittleEndian(0x10325476) == [0x76, 0x54, 0x32, 0x10];
    hide LittleEndian, BigEndian;
  }

  /** Section 3 of RFC 1321, given the transform. */
  function Digest(t: WordTransform, msg: seq<Byte>): seq<Byte> {
    Encoded(Fold(ByBytes(t), INITIAL, Padded(msg, LengthBytes(|msg|, true))), true)
  }

  /** The transform gets the sixteen words of a block, each of four bytes with the low one first. */
  lemma BlockWords(t: WordTransform, h: State, block: seq<Byte>) returns (ws: seq<Word>)
    requires |block| == BLOCK
    ensures |ws| == 16 && ByBytes(t)(h, block) == t(h, ws)
    ensures forall i :: 0 <= i < 16 ==> ws[i] == Number(block[4 * i..4 * i + 4], true)
  {
    ws := Decoded(block, true);
    forall i | 0 <= i < 16 ensures ws[i] == Number(block[4 * i..4 * i + 4], true) {
      DecodedAt(block, true, i);
    }
  }

  /** The digest has the words of the last state in order, each with its low byte first. */
  lemma DigestWords(t: WordTransform, msg: seq<Byte>, i: nat)
    requires i < |Fold(ByBytes(t), INITIAL, Padded(msg, LengthBytes(|msg|, true)))|
    ensures |Digest(t, msg)| >= 4 * i + 4
    ensures Number(Digest(t, msg)[4 * i..4 * i + 4], true) ==
            Fold(ByBytes(t), INITIAL, Padded(msg, LengthBytes(|msg|, true)))[i]
  {
    EncodedAt(Fold(ByBytes(t), INITIAL, Padded(msg, LengthBytes(|msg|, true))), true, i);
  }

  class Context {
    const transform: WordTransform
    var state: State
    var count0: Word
    var count1: Word
    const buffer: array<Byte>
    ghost var msg: seq<Byte>  // everything passed to Update so far

    ghost predicate Valid()
      reads this, buffer
    {
      && buffer.Length == BLOCK && buffer[..|msg| % BLOCK] == Tail(msg)
      && state == Fold(ByBytes(transform), INITIAL, msg)
      && count0 == CountLo(|msg|) && count1 == CountHi(|msg|)
    }

    /** apr_md5_init */
    constructor (transform: WordTransform)
      ensures Valid() && fresh(buffer) && msg == [] && this.transform == transform
    {
      this.transform := transform;
      buffer := new Byte[BLOCK](_ => 0);
      state, count0, count1, msg := INITIAL, 0, 0, [];
    }

    /** MD5Transform of a block */
    method Transform(block: seq<Byte>)
      requires |block| == BLOCK
      modifies this`state
      ensures state == ByBytes(transform)(old(state), block)
    {
      state := transform(state, Decoded(block, true));
    }

    /** memcpy of s into the buffer at position at */
    method Fill(at: nat, s: seq<Byte>)
      requires buffer.Length == BLOCK && at + |s| <= BLOCK
      modifies buffer
      ensures buffer[..at + |s|] == old(buffer[..at]) + s
    {
      for i := 0 to |s|
        invariant buffer[..at] == old(buffer[..at]) && buffer[at..at + i] == s[..i]
      {
        buffer[at + i] := s[i];
      }
    }

    /** The bits of n more bytes are added to the count. */
    method Count(n: nat)
      requires n < TWO32 && count0 == CountLo(|msg|) && count1 == CountHi(|msg|)
      modifies this`count0, this`count1
      ensures count0 == CountLo(|msg| + n) && count1 == CountHi(|msg| + n)
    {
      CountAdds(|msg|, n);
      ModSum(count1 + 1, 8 * n / TWO32, TWO32);
      Wrapped(count0, 8 * n % TWO32);
      count0 := (count0 + 8 * n % TWO32) % TWO32;
      if count0 < 8 * n % TWO32 {
        count1 := (count1 + 1) % TWO32;
      }
      count1 := (count1 + 8 * n / TWO32) % TWO32;
    }

    /** apr_md5_update; the 32-bit loop index bounds the length of one call */
    method Update(input: seq<Byte>)
      requires Valid() && |input| < TWO32 - 63
      modifies this, buffer
      ensures Valid() && msg == old(msg) + input
    {
      ghost var f, h, all := ByBytes(transform), INITIAL, msg + input;
      CountTellsFill(|msg|);
      var idx := count0 / 8 % BLOCK;
      Count(|input|);
      var partLen := BLOCK - idx;
      var i := 0;
      if |input| >= partLen {
        Fill(idx, input[..partLen]);
        assert buffer[..] == buffer[..BLOCK] == Tail(msg) + input[..partLen];
        Transform(buffer[..]);
        FillBlock(f, h, msg, input[..partLen]);
        msg := msg + input[..partLen];
        i := partLen;
        assert all == msg + input[i..];
        i := Blocks(input, i, all);
        idx := 0;
      }
      Finish(idx, input[i..], all);
    }

    /** The whole blocks of the input from `from` on are transformed where they are. */
    method Blocks(input: seq<Byte>, from: nat, ghost all: seq<Byte>) returns (i: nat)
      requires from <= |input| && all == msg + input[from..] && |msg| % BLOCK == 0
      requires state == Fold(ByBytes(transform), INITIAL, msg)
      modifies this`state, this`msg
      ensures from <= i <= |input| < i + BLOCK && all == msg + input[i..] && |msg| % BLOCK == 0
      ensures state == Fold(ByBytes(transform), INITIAL, msg)
    {
      ghost var f, h := ByBytes(transform), INITIAL;
      hide Fold, ByBytes;
      i := from;
      while i + 63 < |input|
        invariant from <= i <= |input| && all == msg + input[i..] && |msg| % BLOCK == 0
        invariant state == Fold(f, h, msg)
      {
        ghost var block := input[i..i + BLOCK];
        Transform(input[i..i + BLOCK]);
        FillBlock(f, h, msg, block);
        assert Tail(msg) + block == block;
        assert input[i..] == block + input[i + BLOCK..];
        msg := msg + block;
        i := i + BLOCK;
      }
    }

    /** The rest of the input stays in the buffer. */
    method Finish(idx: nat, rest: seq<Byte>, ghost all: seq<Byte>)
      requires buffer.Length == BLOCK && idx == |msg| % BLOCK && idx + |rest| < BLOCK && all == msg + rest
      requires buffer[..idx] == Tail(msg) && state == Fold(ByBytes(transform), INITIAL, msg)
      requires count0 == CountLo(|all|) && count1 == CountHi(|all|)
      modifies this`msg, buffer
      ensures Valid() && msg == all
    {
      Fill(idx, rest);
      AddPart(ByBytes(transform), INITIAL, msg, rest);
      assert |all| % BLOCK == idx + |rest| by {
        DivModUnique(|all|, BLOCK, |msg| / BLOCK, idx + |rest|);
      }
      msg := all;
    }

    /** apr_md5_final */
    method Final() returns (out: seq<Byte>)
      requires Valid()
      modifies this, buffer
      ensures out == Digest(transform, old(msg))
      ensures count0 == count1 == 0 && state == [0, 0, 0, 0] && forall i :: 0 <= i < buffer.Length ==> buffer[i] == 0
    {
      ghost var n := |msg|;
      var bits := Encoded([count0, count1], true);
      CountTellsFill(n);
      var idx := count0 / 8 % BLOCK;
      var padLen := if idx < 56 then 56 - idx else 120 - idx;
      PadZerosIs(n);
      assert padLen == 1 + PadZeros(n);
      Update([0x80] + Zeros(padLen - 1));
      Update(bits);
      assert msg == Padded(old(msg), LengthBytes(n, true));
      out := Encoded(state, true);
      state, count0, count1 := [0, 0, 0, 0], 0, 0;
      for i := 0 to buffer.Length
        invariant count0 == count1 == 0 && state == [0, 0, 0, 0]
        invariant forall j :: 0 <= j < i ==> buffer[j] == 0
      {
        buffer[i] := 0;
      }
    }
  }

  /** A 32-bit sum is smaller than one summand exactly when it is smaller than the other. */
  lemma Wrapped(a: Word, b: Word)
    ensures (a + b) % TWO32 < b <==> (a + b) % TWO32 < a
  {
    if a + b < TWO32 {
      DivModUnique(a + b, TWO32, 0, a + b);
    } else {
      DivModUnique(a + b, TWO32, 1, a + b - TWO32);
    }
  }
}
