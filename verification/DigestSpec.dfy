/**
 What the streaming digests compute: a message is padded to whole 64-byte blocks
 that end with its length in bits, and the block transform is folded over them.
 The transform itself is a parameter.
 */
module DigestSpec {
  import opened Basics

  type Byte = b: int | 0 <= b < 256
  type Word = w: int | 0 <= w < 0x1_0000_0000
  type State = seq<Word>
  type Transform = (State, seq<Byte>) -> State

  const BLOCK: nat := 64
  const TWO32: nat := 0x1_0000_0000
  const TWO64: nat := 0x1_0000_0000_0000_0000

  /** The transform applied to the whole blocks of s in turn. */
  function Fold(f: Transform, h: State, s: seq<Byte>): State
    decreases |s|
  {
    if |s| < BLOCK then h else Fold(f, f(h, s[..BLOCK]), s[BLOCK..])
  }

  lemma {:induction false} FoldConcat(f: Transform, h: State, a: seq<Byte>, b: seq<Byte>)
    requires |a| % BLOCK == 0
    ensures Fold(f, h, a + b) == Fold(f, Fold(f, h, a), b)
    decreases |a|
  {
    if |a| == 0 {
      assert a + b == b;
    } else {
      assert (a + b)[..BLOCK] == a[..BLOCK] && (a + b)[BLOCK..] == a[BLOCK..] + b;
      FoldConcat(f, f(h, a[..BLOCK]), a[BLOCK..], b);
    }
  }

  function Zeros(n: nat): (r: seq<Byte>)
    ensures |r| == n
  {
    seq(n, _ => 0)
  }

  /** The number of zero bytes between the 0x80 and the eight length bytes. */
  function PadZeros(n: nat): (k: nat)
    ensures (n + 1 + k + 8) % BLOCK == 0 && k < BLOCK
  {
    (119 - n % BLOCK) % BLOCK
  }

  /** Section 3 of RFC 1321 and section 5.1.1 of FIPS 180-4, given the eight length bytes. */
  function Padded(msg: seq<Byte>, length: seq<Byte>): seq<Byte> {
    msg + [0x80] + Zeros(PadZeros(|msg|)) + length
  }

  // ---------- words and bytes ----------

  function BigEndian(w: Word): (r: seq<Byte>)
    ensures |r| == 4
  {
    [w / 0x100_0000, w / 0x1_0000 % 0x100, w / 0x100 % 0x100, w % 0x100]
  }

  function LittleEndian(w: Word): (r: seq<Byte>)
    ensures |r| == 4
  {
    [w % 0x100, w / 0x100 % 0x100, w / 0x1_0000 % 0x100, w / 0x100_0000]
  }

  function FromBigEndian(s: seq<Byte>): Word
    requires |s| == 4
  {
    var a: int, b: int, c: int, d: int := s[0], s[1], s[2], s[3];
    a * 0x100_0000 + b * 0x1_0000 + c * 0x100 + d
  }

  function FromLittleEndian(s: seq<Byte>): Word
    requires |s| == 4
  {
    var a: int, b: int, c: int, d: int := s[3], s[2], s[1], s[0];
    a * 0x100_0000 + b * 0x1_0000 + c * 0x100 + d
  }

  lemma EndianRoundTrip(w: Word)
    ensures FromBigEndian(BigEndian(w)) == w && FromLittleEndian(LittleEndian(w)) == w
  {
    WordParts(w);
  }

  lemma WordParts(w: Word)
    ensures w / 0x100_0000 * 0x100_0000 + w / 0x1_0000 % 0x100 * 0x1_0000 + w / 0x100 % 0x100 * 0x100 + w % 0x100 == w
  {
    var x, y, z := w / 0x100, w / 0x1_0000, w / 0x100_0000;
    assert w == x * 0x100 + w % 0x100;
    DivModUnique(w, 0x1_0000, x / 0x100, x % 0x100 * 0x100 + w % 0x100);
    DivModUnique(w, 0x100_0000, y / 0x100, y % 0x100 * 0x1_0000 + x % 0x100 * 0x100 + w % 0x100);
  }

  function Encoded(ws: seq<Word>, little: bool): (r: seq<Byte>)
    ensures |r| == 4 * |ws|
  {
    if |ws| == 0 then [] else (if little then LittleEndian(ws[0]) else BigEndian(ws[0])) + Encoded(ws[1..], little)
  }

  function Decoded(s: seq<Byte>, little: bool): (r: seq<Word>)
    requires |s| % 4 == 0
    ensures |r| == |s| / 4
  {
    if |s| == 0 then []
    else [if little then FromLittleEndian(s[..4]) else FromBigEndian(s[..4])] + Decoded(s[4..], little)
  }

  lemma {:induction false} DecodeEncode(ws: seq<Word>, little: bool)
    ensures Decoded(Encoded(ws, little), little) == ws
    decreases |ws|
  {
    if |ws| > 0 {
      var s := Encoded(ws, little);
      EndianRoundTrip(ws[0]);
      assert s[4..] == Encoded(ws[1..], little);
      assert s[..4] == if little then LittleEndian(ws[0]) else BigEndian(ws[0]);
      DecodeEncode(ws[1..], little);
    }
  }

  lemma {:induction false} DecodedConcat(a: seq<Byte>, b: seq<Byte>, little: bool)
    requires |a| % 4 == 0 && |b| % 4 == 0
    ensures Decoded(a + b, little) == Decoded(a, little) + Decoded(b, little)
    decreases |a|
  {
    if |a| == 0 {
      assert a + b == b;
    } else {
      assert (a + b)[..4] == a[..4] && (a + b)[4..] == a[4..] + b;
      DecodedConcat(a[4..], b, little);
    }
  }

  // ---------- the 64-bit count kept in two 32-bit words ----------

  function CountLo(n: nat): Word {
    8 * n % TWO32
  }

  function CountHi(n: nat): Word {
    8 * n / TWO32 % TWO32
  }

  /** Eight length bytes: MD5 puts the low word first, SHA-1 the high word. */
  function LengthBytes(n: nat, little: bool): seq<Byte> {
    Encoded(if little then [CountLo(n), CountHi(n)] else [CountHi(n), CountLo(n)], little)
  }

  /** The low word after adding the bits of c bytes, and whether it wrapped. */
  function AddLo(lo: Word, c: nat): Word {
    (lo + 8 * c % TWO32) % TWO32
  }

  function AddHi(hi: Word, lo: Word, c: nat): Word {
    (hi + (if AddLo(lo, c) < lo then 1 else 0) + 8 * c / TWO32) % TWO32
  }

  /** The two updates of the count words are one addition modulo 2^64. */
  lemma CountAdds(n: nat, c: nat)
    requires c < TWO32
    ensures AddLo(CountLo(n), c) == CountLo(n + c)
    ensures AddHi(CountHi(n), CountLo(n), c) == CountHi(n + c)
  {
    var a, b := 8 * n, 8 * c;
    DivModSum(a, b, TWO32);
    assert 8 * (n + c) == a + b;
    ModSum(a / TWO32, b / TWO32 + (if a % TWO32 + b % TWO32 >= TWO32 then 1 else 0), TWO32);
  }

  lemma DivModSum(a: nat, b: nat, m: nat)
    requires m > 0
    ensures (a + b) % m == (a % m + b % m) % m
    ensures (a + b) / m == a / m + b / m + (if a % m + b % m >= m then 1 else 0)
    ensures a % m + b % m >= m <==> (a % m + b % m) % m < a % m
  {
    var x, y, u, v := a / m, b / m, a % m, b % m;
    Distribute(x, y, m);
    if u + v >= m {
      DivModUnique(a + b, m, x + y + 1, u + v - m);
      DivModUnique(u + v, m, 1, u + v - m);
    } else {
      DivModUnique(a + b, m, x + y, u + v);
      DivModUnique(u + v, m, 0, u + v);
    }
  }

  lemma Distribute(x: nat, y: nat, m: nat)
    ensures (x + y) * m == x * m + y * m && (x + y + 1) * m == x * m + y * m + m
  {
  }

  /** The two words together are the number of bits modulo 2^64. */
  lemma CountIs64Bit(n: nat)
    ensures CountHi(n) * TWO32 + CountLo(n) == 8 * n % TWO64
  {
    var a := 8 * n;
    var h := a / TWO32;
    assert a == h * TWO32 + a % TWO32 && h == h / TWO32 * TWO32 + h % TWO32;
    assert a == h / TWO32 * TWO64 + (h % TWO32 * TWO32 + a % TWO32);
    DivModUnique(a, TWO64, h / TWO32, h % TWO32 * TWO32 + a % TWO32);
  }

  /** The low word tells how full the buffer is. */
  lemma CountTellsFill(n: nat)
    ensures CountLo(n) / 8 % BLOCK == n % BLOCK
  {
    var a := 8 * n;
    var q := a / TWO32;
    assert a == q * TWO32 + CountLo(n);
    assert CountLo(n) == 8 * (n - q * 0x2000_0000);
    var m := n - q * 0x2000_0000;
    assert n == q * 0x80_0000 * BLOCK + m;
    assert m == m / BLOCK * BLOCK + m % BLOCK;
    assert n == (q * 0x80_0000 + m / BLOCK) * BLOCK + m % BLOCK;
    DivModUnique(n, BLOCK, q * 0x80_0000 + m / BLOCK, m % BLOCK);
  }

  // ---------- the padded message ----------

  /** The number that bytes make, the most significant first or last */
  function Number(s: seq<Byte>, little: bool): nat {
    if |s| == 0 then 0
    else if little then s[0] + 0x100 * Number(s[1..], little)
    else Number(s[..|s| - 1], little) * 0x100 + s[|s| - 1]
  }

  lemma LittleNumber(s: seq<Byte>)
    requires |s| >= 4
    ensures Number(s, true) == FromLittleEndian(s[..4]) + Number(s[4..], true) * TWO32
  {
    NumberParts(s, 0);
    NumberParts(s, 1);
    NumberParts(s, 2);
    NumberParts(s, 3);
    assert s[0..] == s;
    hide Number;
  }

  lemma BigNumber(s: seq<Byte>)
    requires |s| >= 4
    ensures var k := |s| - 4; Number(s, false) == Number(s[..k], false) * TWO32 + FromBigEndian(s[k..])
  {
    var k := |s| - 4;
    NumberParts(s, k);
    NumberParts(s, k + 1);
    NumberParts(s, k + 2);
    NumberParts(s, k + 3);
    assert s[..k + 4] == s;
    hide Number;
  }

  lemma NumberOfEight(s: seq<Byte>)
    requires |s| == 8
    ensures Number(s, true) == FromLittleEndian(s[..4]) + FromLittleEndian(s[4..]) * TWO32
    ensures Number(s, false) == FromBigEndian(s[..4]) * TWO32 + FromBigEndian(s[4..])
  {
    var a, b := s[..4], s[4..];
    LittleNumber(s);
    LittleNumber(b);
    BigNumber(s);
    BigNumber(a);
    assert b[..4] == b && a[0..] == a && Number(b[4..], true) == Number(a[..0], false) == 0;
    hide Number, FromLittleEndian, FromBigEndian;
  }

  lemma NumberParts(s: seq<Byte>, k: nat)
    requires k < |s|
    ensures Number(s[k..], true) == s[k] + 0x100 * Number(s[k + 1..], true)
    ensures Number(s[..k + 1], false) == Number(s[..k], false) * 0x100 + s[k]
  {
    assert s[k..][1..] == s[k + 1..] && s[..k + 1][..k] == s[..k];
  }

  lemma NumberOfFour(s: seq<Byte>)
    requires |s| == 4
    ensures Number(s, true) == FromLittleEndian(s) && Number(s, false) == FromBigEndian(s)
  {
    LittleNumber(s);
    BigNumber(s);
    assert s[..4] == s && s[0..] == s && Number(s[4..], true) == Number(s[..0], false) == 0;
    hide Number, FromLittleEndian, FromBigEndian;
  }

  /** Four bytes of packed words are the word there, as a number with the low byte first or the high one. */
  lemma {:induction false} EncodedAt(ws: seq<Word>, little: bool, i: nat)
    requires i < |ws|
    ensures Number(Encoded(ws, little)[4 * i..4 * i + 4], little) == ws[i]
    decreases |ws|
  {
    var s := Encoded(ws, little);
    if i == 0 {
      EndianRoundTrip(ws[0]);
      assert s[..4] == if little then LittleEndian(ws[0]) else BigEndian(ws[0]);
      NumberOfFour(s[..4]);
    } else {
      EncodedAt(ws[1..], little, i - 1);
      assert s[4..] == Encoded(ws[1..], little);
      assert s[4 * i..4 * i + 4] == s[4..][4 * (i - 1)..4 * (i - 1) + 4];
    }
  }

  lemma {:induction false} DecodedAt(s: seq<Byte>, little: bool, i: nat)
    requires |s| % 4 == 0 && 4 * i < |s|
    ensures Decoded(s, little)[i] == Number(s[4 * i..4 * i + 4], little)
    decreases |s|
  {
    if i == 0 {
      NumberOfFour(s[..4]);
    } else {
      DecodedAt(s[4..], little, i - 1);
      assert s[4 * i..4 * i + 4] == s[4..][4 * (i - 1)..4 * (i - 1) + 4];
    }
  }

  /** The eight length bytes are the number of bits modulo 2^64. */
  lemma LengthIsBits(n: nat, little: bool)
    ensures |LengthBytes(n, little)| == 8 && Number(LengthBytes(n, little), little) == 8 * n % TWO64
  {
    var lo, hi, s := CountLo(n), CountHi(n), LengthBytes(n, little);
    CountIs64Bit(n);
    NumberOfEight(s);
    EndianRoundTrip(lo);
    EndianRoundTrip(hi);
    hide Number, CountLo, CountHi, BigEndian, LittleEndian, FromBigEndian, FromLittleEndian;
    var a, b := if little then lo else hi, if little then hi else lo;
    assert Encoded([b], little) == if little then LittleEndian(b) else BigEndian(b);
    assert s[..4] == (if little then LittleEndian(a) else BigEndian(a)) && s[4..] == Encoded([b], little);
  }

  /**
   A padded message is the message, a one bit, as few zero bits as fill the last block, and the number of its bits:
   section 3 of RFC 1321, with the number low byte first, and section 5.1.1 of FIPS 180-4, with the high byte first.
   */
  lemma PaddedAsStandard(msg: seq<Byte>, little: bool)
    ensures var p, n := Padded(msg, LengthBytes(|msg|, little)), |msg|;
            && |p| % BLOCK == 0 && n + 9 <= |p| < n + 9 + BLOCK
            && p[..n] == msg && p[n] == 0x80 && (forall i :: n < i < |p| - 8 ==> p[i] == 0)
            && Number(p[|p| - 8..], little) == 8 * n % TWO64
  {
    LengthIsBits(|msg|, little);
    var length, k := LengthBytes(|msg|, little), PadZeros(|msg|);
    hide LengthBytes, Number, PadZeros;
    var p := Padded(msg, length);
    assert p[|p| - 8..] == length;
  }

  // ---------- streaming ----------

  /** The bytes of msg that do not fill a block yet. */
  function Tail(msg: seq<Byte>): seq<Byte> {
    msg[|msg| - |msg| % BLOCK..]
  }

  lemma {:induction false} FoldIgnoresTail(f: Transform, h: State, msg: seq<Byte>)
    ensures Fold(f, h, msg) == Fold(f, h, msg[..|msg| - |msg| % BLOCK])
    decreases |msg|
  {
    if |msg| >= BLOCK {
      var rest := msg[BLOCK..];
      assert |rest| % BLOCK == |msg| % BLOCK;
      FoldIgnoresTail(f, f(h, msg[..BLOCK]), rest);
      var whole := msg[..|msg| - |msg| % BLOCK];
      assert whole[..BLOCK] == msg[..BLOCK] && whole[BLOCK..] == rest[..|rest| - |rest| % BLOCK];
    }
  }

  /** Bytes that do not complete a block change nothing but the tail. */
  lemma AddPart(f: Transform, h: State, msg: seq<Byte>, part: seq<Byte>)
    requires |msg| % BLOCK + |part| < BLOCK
    ensures Fold(f, h, msg + part) == Fold(f, h, msg) && Tail(msg + part) == Tail(msg) + part
  {
    var all := msg + part;
    assert |all| % BLOCK == |msg| % BLOCK + |part| by {
      DivModUnique(|all|, BLOCK, |msg| / BLOCK, |msg| % BLOCK + |part|);
    }
    FoldIgnoresTail(f, h, msg);
    FoldIgnoresTail(f, h, all);
    assert all[..|all| - |all| % BLOCK] == msg[..|msg| - |msg| % BLOCK];
  }

  /** Bytes that complete the block are transformed together with the tail. */
  lemma FillBlock(f: Transform, h: State, msg: seq<Byte>, part: seq<Byte>)
    requires |msg| % BLOCK + |part| == BLOCK
    ensures Fold(f, h, msg + part) == f(Fold(f, h, msg), Tail(msg) + part)
    ensures |msg + part| % BLOCK == 0
  {
    var whole := msg[..|msg| - |msg| % BLOCK];
    var block := Tail(msg) + part;
    assert msg + part == whole + block;
    FoldConcat(f, h, whole, block);
    FoldIgnoresTail(f, h, msg);
    assert block[..BLOCK] == block;
    DivModUnique(|msg + part|, BLOCK, |msg| / BLOCK + 1, 0);
  }

  // ---------- padding ----------

  lemma PadZerosIs(n: nat)
    ensures PadZeros(n) == if n % BLOCK <= BLOCK - 9 then BLOCK - 9 - n % BLOCK else 2 * BLOCK - 9 - n % BLOCK
  {
  }

  /** The length goes into the block that the message ends in, if nine bytes are left there. */
  lemma PadOneBlock(f: Transform, h: State, msg: seq<Byte>, length: seq<Byte>)
    requires |length| == 8 && |msg| % BLOCK <= BLOCK - 9
    ensures Fold(f, h, Padded(msg, length)) ==
            f(Fold(f, h, msg), Tail(msg) + ([0x80] + Zeros(BLOCK - 9 - |msg| % BLOCK)) + length)
  {
    hide Fold, PadZeros, Zeros;
    PadZerosIs(|msg|);
    var z := Zeros(BLOCK - 9 - |msg| % BLOCK);
    var part := [0x80] + z + length;
    assert Padded(msg, length) == msg + part;
    FillBlock(f, h, msg, part);
    assert Tail(msg) + part == Tail(msg) + ([0x80] + z) + length;
  }

  /** Otherwise the message is padded to a whole block, and the length ends a block of its own. */
  lemma PadTwoBlocks(f: Transform, h: State, msg: seq<Byte>, length: seq<Byte>)
    requires |length| == 8 && |msg| % BLOCK > BLOCK - 9
    ensures Fold(f, h, Padded(msg, length)) ==
            f(Fold(f, h, msg + ([0x80] + Zeros(BLOCK - 1 - |msg| % BLOCK))), Zeros(BLOCK - 8) + length)
  {
    hide Fold, PadZeros;
    PadZerosIs(|msg|);
    var z := BLOCK - 1 - |msg| % BLOCK;
    var first, second := [0x80] + Zeros(z), Zeros(BLOCK - 8) + length;
    assert Zeros(z + (BLOCK - 8)) == Zeros(z) + Zeros(BLOCK - 8);
    assert Padded(msg, length) == (msg + first) + second;
    FillBlock(f, h, msg, first);
    FillBlock(f, h, msg + first, second);
    assert Tail(msg + first) + second == second;
  }
}
