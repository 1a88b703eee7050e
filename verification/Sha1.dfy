/**
 The SHA-1 context: bytes are buffered until a block is full, and the length is
 kept in two 32-bit words. The transform takes the sixteen big-endian words of a
 block.
 */
module Sha1 {
  import opened Basics
  import opened DigestSpec

  type WordTransform = (State, seq<Word>) -> State

  const INITIAL: State := [0x67452301, 0xefcdab89, 0x98badcfe, 0x10325476, 0xc3d2e1f0]

  /** The five words of section 5.3.1 of FIPS 180-4: MD5's four with the byte order of each turned, and one more */
  lemma InitialBytes()
    ensures Encoded(INITIAL, false) == [0x67, 0x45, 0x23, 0x01, 0xef, 0xcd, 0xab, 0x89,
                                        0x98, 0xba, 0xdc, 0xfe, 0x10, 0x32, 0x54, 0x76, 0xc3, 0xd2, 0xe1, 0xf0]
  {
    assert BigEndian(0x67452301) == [0x67, 0x45, 0x23, 0x01] && BigEndian(0xefcdab89) == [0xef, 0xcd, 0xab, 0x89];
    assert BigEndian(0x98badcfe) == [0x98, 0xba, 0xdc, 0xfe] && BigEndian(0x10325476) == [0x10, 0x32, 0x54, 0x76];
    assert BigEndian(0xc3d2e1f0) == [0xc3, 0xd2, 0xe1, 0xf0];
    hide LittleEndian, BigEndian;
  }

  /** The transform as a step on the bytes of a block. */
  function ByBytes(t: WordTransform): Transform {
    (h, block) => if |block| % 4 == 0 then t(h, Decoded(block, false)) else h
  }

  /** Section 6.1 of FIPS 180-4, given the transform. */
  function Digest(t: WordTransform, msg: seq<Byte>): seq<Byte> {
    Encoded(Fold(ByBytes(t), INITIAL, Padded(msg, LengthBytes(|msg|, false))), false)
  }

  /** The transform gets the sixteen words of a block, each of four bytes with the high one first. */
  lemma BlockWords(t: WordTransform, h: State, block: seq<Byte>) returns (ws: seq<Word>)
    requires |block| == BLOCK
    ensures |ws| == 16 && ByBytes(t)(h, block) == t(h, ws)
    ensures forall i :: 0 <= i < 16 ==> ws[i] == Number(block[4 * i..4 * i + 4], false)
  {
    ws := Decoded(block, false);
    forall i | 0 <= i < 16 ensures ws[i] == Number(block[4 * i..4 * i + 4], false) {
      DecodedAt(block, false, i);
    }
  }

  /** The digest has the words of the last state in order, each with its high byte first. */
  lemma DigestWords(t: WordTransform, msg: seq<Byte>, i: nat)
    requires i < |Fold(ByBytes(t), INITIAL, Padded(msg, LengthBytes(|msg|, false)))|
    ensures |Digest(t, msg)| >= 4 * i + 4
    ensures Number(Digest(t, msg)[4 * i..4 * i + 4], false) ==
            Fold(ByBytes(t), INITIAL, Padded(msg, LengthBytes(|msg|, false)))[i]
  {
    EncodedAt(Fold(ByBytes(t), INITIAL, Padded(msg, LengthBytes(|msg|, false))), false, i);
  }

  class Context {
    const transform: WordTransform
    var digest: State
    var countLo: Word
    var countHi: Word
    var local: nat
    const data: array<Byte>
    ghost var msg: seq<Byte>  // everything passed to Update so far

    ghost predicate Valid()
      reads this, data
    {
      && data.Length == BLOCK && local == |msg| % BLOCK && data[..local] == Tail(msg)
      && digest == Fold(ByBytes(transform), INITIAL, msg)
      && countLo == CountLo(|msg|) && countHi == CountHi(|msg|)
    }

    /** apr_sha1_init */
    constructor (transform: WordTransform)
      ensures Valid() && fresh(data) && msg == [] && this.transform == transform
    {
      this.transform := transform;
      data := new Byte[BLOCK](_ => 0);
      digest, countLo, countHi, local, msg := INITIAL, 0, 0, 0, [];
    }

    method Transform()
      requires data.Length == BLOCK
      modifies this`digest
      ensures digest == ByBytes(transform)(old(digest), data[..])
    {
      digest := transform(digest, Decoded(data[..], false));
    }

    /** memcpy of s into the buffer at position at */
    method Fill(at: nat, s: seq<Byte>)
      requires data.Length == BLOCK && at + |s| <= BLOCK
      modifies data
      ensures data[..at + |s|] == old(data[..at]) + s && data[at + |s|..] == old(data[at + |s|..])
    {
      for i := 0 to |s|
        invariant data[..at] == old(data[..at]) && data[at..at + i] == s[..i]
        invariant data[at + |s|..] == old(data[at + |s|..])
      {
        data[at + i] := s[i];
      }
    }

    /** The bits of n more bytes are added to the count. */
    method Count(n: nat)
      requires n < TWO32 && countLo == CountLo(|msg|) && countHi == CountHi(|msg|)
      modifies this`countLo, this`countHi
      ensures countLo == CountLo(|msg| + n) && countHi == CountHi(|msg| + n)
    {
      CountAdds(|msg|, n);
      ghost var hi: nat := countHi;
      ModSum(hi + 1, 8 * n / TWO32, TWO32);
      var lo := (countLo + 8 * n % TWO32) % TWO32;
      if lo < countLo {
        countHi := (countHi + 1) % TWO32;
      }
      countHi := (countHi + 8 * n / TWO32) % TWO32;
      countLo := lo;
    }

    /** apr_sha1_update_binary; a call takes at most 2^32 - 1 bytes */
    method Update(buffer: seq<Byte>)
      requires Valid() && |buffer| < TWO32
      modifies this, data
      ensures Valid() && msg == old(msg) + buffer
    {
      ghost var all := msg + buffer;
      Count(|buffer|);
      var rest := buffer;
      if local != 0 {
        var i := if BLOCK - local > |buffer| then |buffer| else BLOCK - local;
        assert all == (msg + buffer[..i]) + buffer[i..];
        TopUp(buffer[..i], all);
        rest := buffer[i..];
        if local < BLOCK {
          assert buffer[..i] == buffer;
          return;
        }
      }
      Blocks(rest, all);
    }

    /** A started block gets more bytes and is transformed when it is full. */
    method TopUp(part: seq<Byte>, ghost all: seq<Byte>)
      requires data.Length == BLOCK && 0 < local == |msg| % BLOCK && data[..local] == Tail(msg)
      requires digest == Fold(ByBytes(transform), INITIAL, msg) && local + |part| <= BLOCK
      modifies this`digest, this`local, this`msg, data
      ensures msg == old(msg) + part && local == old(local) + |part| && digest == Fold(ByBytes(transform), INITIAL, msg)
      ensures if local == BLOCK then |msg| % BLOCK == 0 else |msg| % BLOCK == local && data[..local] == Tail(msg)
    {
      ghost var f, h := ByBytes(transform), INITIAL;
      Fill(local, part);
      local := local + |part|;
      if local == BLOCK {
        FillBlock(f, h, msg, part);
        assert data[..] == data[..local];
        Transform();
      } else {
        AddPart(f, h, msg, part);
        assert |msg + part| % BLOCK == local by {
          DivModUnique(|msg + part|, BLOCK, |msg| / BLOCK, local);
        }
      }
      msg := msg + part;
    }

    /** The whole blocks of buffer, and then its rest. */
    method Blocks(buffer: seq<Byte>, ghost all: seq<Byte>)
      requires data.Length == BLOCK && |msg| % BLOCK == 0 && digest == Fold(ByBytes(transform), INITIAL, msg)
      requires countLo == CountLo(|all|) && countHi == CountHi(|all|) && all == msg + buffer
      modifies this, data
      ensures Valid() && msg == all
    {
      hide Fold, CountLo, CountHi, ByBytes;
      ghost var f, h := ByBytes(transform), INITIAL;
      var rest := buffer;
      while |rest| >= BLOCK
        invariant data.Length == BLOCK && |msg| % BLOCK == 0 && digest == Fold(f, h, msg) && all == msg + rest
        invariant countLo == CountLo(|all|) && countHi == CountHi(|all|)
        decreases |rest|
      {
        Fill(0, rest[..BLOCK]);
        FillBlock(f, h, msg, rest[..BLOCK]);
        assert data[..] == data[..BLOCK] == Tail(msg) + rest[..BLOCK];
        Transform();
        assert rest == rest[..BLOCK] + rest[BLOCK..];
        msg := msg + rest[..BLOCK];
        rest := rest[BLOCK..];
      }
      Fill(0, rest);
      local := |rest|;
      AddPart(f, h, msg, rest);
      msg := all;
    }

    /** apr_sha1_final */
    method Final() returns (out: seq<Byte>)
      requires Valid()
      modifies this, data
      ensures out == Digest(transform, old(msg))
    {
      ghost var n := |msg|;
      CountTellsFill(n);
      var lo, hi := countLo, countHi;
      Pad(lo / 8 % BLOCK);
      LastWords(data[..BLOCK - 8], n);
      digest := transform(digest, Decoded(data[..BLOCK - 8], false) + [hi, lo]);
      out := Encoded(digest, false);
    }

    /** The end of the message is padded up to the place of the length. */
    method Pad(used: nat)
      requires Valid() && used == |msg| % BLOCK
      modifies this`digest, data
      ensures forall length: seq<Byte> | |length| == 8 :: Fold(ByBytes(transform), INITIAL, Padded(msg, length)) ==
                ByBytes(transform)(digest, data[..BLOCK - 8] + length)
    {
      hide Fold, Padded, Zeros, ByBytes;
      ghost var f, h := ByBytes(transform), INITIAL;
      ghost var tail := Tail(msg);
      data[used] := 0x80;
      var count := used + 1;
      assert data[..count] == tail + [0x80];
      if count > BLOCK - 8 {
        ClearFrom(count, BLOCK);
        assert data[..] == data[..count] + data[count..BLOCK];
        assert data[..] == tail + ([0x80] + Zeros(BLOCK - count));
        FillBlock(f, h, msg, [0x80] + Zeros(BLOCK - count));
        Transform();
        ClearFrom(0, BLOCK - 8);
        assert data[..BLOCK - 8] == Zeros(BLOCK - 8);
        forall length: seq<Byte> | |length| == 8
          ensures Fold(f, h, Padded(msg, length)) == f(digest, data[..BLOCK - 8] + length)
        {
          PadTwoBlocks(f, h, msg, length);
        }
      } else {
        ClearFrom(count, BLOCK - 8);
        assert data[..BLOCK - 8] == data[..count] + data[count..BLOCK - 8];
        assert data[..BLOCK - 8] == tail + ([0x80] + Zeros(BLOCK - 8 - count));
        forall length: seq<Byte> | |length| == 8
          ensures Fold(f, h, Padded(msg, length)) == f(digest, data[..BLOCK - 8] + length)
        {
          PadOneBlock(f, h, msg, length);
        }
      }
    }

    /** memset to zero of the bytes from..to */
    method ClearFrom(from: nat, to: nat)
      requires data.Length == BLOCK && from <= to <= BLOCK
      modifies data
      ensures data[..from] == old(data[..from]) && data[from..to] == Zeros(to - from) && data[to..] == old(data[to..])
    {
      for i := from to to
        invariant data[..from] == old(data[..from]) && data[to..] == old(data[to..])
        invariant forall j :: from <= j < i ==> data[j] == 0
      {
        data[i] := 0;
      }
    }
  }

  /** Storing the two count words is storing the length bytes. */
  lemma LastWords(s: seq<Byte>, n: nat)
    requires |s| == BLOCK - 8
    ensures Decoded(s + LengthBytes(n, false), false) == Decoded(s, false) + [CountHi(n), CountLo(n)]
  {
    DecodedConcat(s, LengthBytes(n, false), false);
    DecodeEncode([CountHi(n), CountLo(n)], false);
  }
}
