/**
 Base64: the encoder and decoder write into a caller's buffer and return lengths.
 A C string is modelled by its bytes before the terminating NUL.
 */
module Base64 {

  type Byte = b: int | 0 <= b < 256
  type Six = b: int | 0 <= b < 64

  /** basis_64 */
  function Basis(i: Six): Byte {
    if i < 26 then 65 + i else if i < 52 then 71 + i else if i < 62 then i - 4 else if i == 62 then 43 else 47
  }

  /** pr2six: the value of a coding character, and 64 for every other byte */
  function Pr2Six(c: Byte): (r: int)
    ensures 0 <= r <= 64
  {
    if 65 <= c <= 90 then c - 65 else if 97 <= c <= 122 then c - 71
    else if 48 <= c <= 57 then c + 4 else if c == 43 then 62 else if c == 47 then 63 else 64
  }

  const PAD: Byte := 61

  lemma BasisInverse(i: Six, c: Byte)
    ensures Pr2Six(Basis(i)) == i
    ensures Pr2Six(c) < 64 ==> Basis(Pr2Six(c)) == c
    ensures Pr2Six(PAD) == 64 && Pr2Six(0) == 64
  {
  }

  // ---------- three bytes as four six-bit values ----------

  function First(a: Byte): Six { a / 4 }
  function Second(a: Byte, b: Byte): Six { a % 4 * 16 + b / 16 }
  function Third(b: Byte, c: Byte): Six { b % 16 * 4 + c / 64 }
  function Fourth(c: Byte): Six { c % 64 }

  function Join1(p: Six, q: Six): Byte { p * 4 + q / 16 }
  function Join2(q: Six, r: Six): Byte { q % 16 * 16 + r / 4 }
  function Join3(r: Six, s: Six): Byte { r % 4 * 64 + s }

  lemma SplitJoin(a: Byte, b: Byte, c: Byte)
    ensures Join1(First(a), Second(a, b)) == a
    ensures Join2(Second(a, b), Third(b, c)) == b
    ensures Join3(Third(b, c), Fourth(c)) == c
  {
  }

  /** Section 4 of RFC 4648, with padding. */
  function EncodedText(s: seq<Byte>): seq<Byte>
    decreases |s|
  {
    if |s| == 0 then []
    else if |s| == 1 then [Basis(First(s[0])), Basis(Second(s[0], 0)), PAD, PAD]
    else if |s| == 2 then [Basis(First(s[0])), Basis(Second(s[0], s[1])), Basis(Third(s[1], 0)), PAD]
    else [Basis(First(s[0])), Basis(Second(s[0], s[1])), Basis(Third(s[1], s[2])), Basis(Fourth(s[2]))]
         + EncodedText(s[3..])
  }

  /** The bytes that a run of coding characters stands for; a last lone character stands for none. */
  function DecodedBytes(t: seq<Byte>): seq<Byte>
    requires forall i :: 0 <= i < |t| ==> Pr2Six(t[i]) < 64
    decreases |t|
  {
    if |t| <= 1 then []
    else
      var p, q := Pr2Six(t[0]), Pr2Six(t[1]);
      if |t| == 2 then [Join1(p, q)]
      else if |t| == 3 then [Join1(p, q), Join2(q, Pr2Six(t[2]))]
      else [Join1(p, q), Join2(q, Pr2Six(t[2])), Join3(Pr2Six(t[2]), Pr2Six(t[3]))] + DecodedBytes(t[4..])
  }

  /** How many coding characters a string starts with. */
  function CodingPrefix(t: seq<Byte>): (n: nat)
    ensures n <= |t| && (forall i :: 0 <= i < n ==> Pr2Six(t[i]) < 64) && (n < |t| ==> Pr2Six(t[n]) == 64)
  {
    if |t| == 0 || Pr2Six(t[0]) == 64 then 0 else 1 + CodingPrefix(t[1..])
  }

  function Decode(t: seq<Byte>): seq<Byte> {
    DecodedBytes(t[..CodingPrefix(t)])
  }

  // ---------- what the standard has ----------

  const UPPER: string := "ABCDEFGHIJKLMNOPQRSTUVWXYZ"
  const LOWER: string := "abcdefghijklmnopqrstuvwxyz"
  const DIGITS: string := "0123456789"

  /** The 64 characters of table 1 of RFC 4648: these three rows in their order, a plus sign and a slash */
  lemma BasisIsAlphabet(i: Six)
    ensures i < 26 ==> Basis(i) == UPPER[i] as int
    ensures 26 <= i < 52 ==> Basis(i) == LOWER[i - 26] as int
    ensures 52 <= i < 62 ==> Basis(i) == DIGITS[i - 52] as int
    ensures Basis(62) == '+' as int && Basis(63) == '/' as int
  {
    Run(UPPER, 'A', i);
    Run(LOWER, 'a', i - 26);
    Run(DIGITS, '0', i - 52);
  }

  lemma Run(s: string, c: char, i: int)
    requires forall j :: 0 < j < |s| ==> s[j] as int == s[j - 1] as int + 1
    requires |s| > 0 && s[0] == c
    ensures 0 <= i < |s| ==> s[i] as int == c as int + i
    decreases i
  {
    if 0 < i < |s| {
      Run(s, c, i - 1);
    }
  }

  /** Three bytes and their four values are the same 24 bits. */
  lemma SameBits(a: Byte, b: Byte, c: Byte)
    ensures First(a) * 0x4_0000 + Second(a, b) * 0x1000 + Third(b, c) * 0x40 + Fourth(c) ==
            a * 0x1_0000 + b * 0x100 + c
  {
  }

  /** Coding characters, and k equals signs behind them */
  ghost predicate PaddedWith(t: seq<Byte>, k: nat) {
    && k <= |t| && (forall i :: 0 <= i < |t| - k ==> Pr2Six(t[i]) < 64)
    && (forall i :: |t| - k <= i < |t| ==> t[i] == '=' as int)
  }

  /** The encoding is coding characters only, but for one equals sign for each byte that the last group lacks. */
  lemma {:induction false} PaddedToGroups(s: seq<Byte>)
    ensures |EncodedText(s)| % 4 == 0 && PaddedWith(EncodedText(s), (3 - |s| % 3) % 3)
    decreases |s|
  {
    AllCode();
    hide Basis, Pr2Six, First, Second, Third, Fourth;
    if |s| >= 3 {
      PaddedToGroups(s[3..]);
      var group := EncodedText(s)[..4];
      assert EncodedText(s) == group + EncodedText(s[3..]) && PaddedWith(group, 0);
      hide EncodedText;
      PaddedBehind(group, EncodedText(s[3..]), (3 - |s| % 3) % 3);
    }
  }

  lemma PaddedBehind(a: seq<Byte>, b: seq<Byte>, k: nat)
    requires PaddedWith(a, 0) && PaddedWith(b, k)
    ensures PaddedWith(a + b, k)
  {
    hide Pr2Six;
  }

  lemma AllCode()
    ensures forall i: Six :: Pr2Six(Basis(i)) < 64
  {
    forall i: Six ensures Pr2Six(Basis(i)) < 64 {
      BasisInverse(i, 0);
    }
  }

  /** The first three examples of section 10 of RFC 4648: f, fo and foo */
  lemma FirstExamples()
    ensures EncodedText(Ascii("f")) == Ascii("Zg==")
    ensures EncodedText(Ascii("fo")) == Ascii("Zm8=")
    ensures EncodedText(Ascii("foo")) == Ascii("Zm9v")
  {
  }

  function Ascii(s: string): seq<Byte>
    requires forall i :: 0 <= i < |s| ==> s[i] < 128 as char
  {
    seq(|s|, i requires 0 <= i < |s| => s[i] as int)
  }

  // ---------- lengths ----------

  function EncodeLen(len: nat): nat {
    (len + 2) / 3 * 4 + 1
  }

  function DecodeLen(t: seq<Byte>): nat {
    GroupBytes(CodingPrefix(t)) + 1
  }

  lemma EncodeLenStep(n: nat)
    ensures n >= 3 ==> EncodeLen(n) == EncodeLen(n - 3) + 4
    ensures EncodeLen(0) == 1 && EncodeLen(1) == 5 && EncodeLen(2) == 5
  {
  }

  lemma {:induction false} EncodedLength(s: seq<Byte>)
    ensures |EncodedText(s)| + 1 == EncodeLen(|s|)
    decreases |s|
  {
    if |s| >= 3 {
      EncodedLength(s[3..]);
    }
  }

  /** Three bytes for each group of four characters that n characters begin. */
  function GroupBytes(n: nat): nat {
    (n + 3) / 4 * 3
  }

  lemma GroupStep(n: nat)
    ensures n >= 4 ==> GroupBytes(n) == GroupBytes(n - 4) + 3
  {
  }

  lemma {:induction false} DecodedFits(t: seq<Byte>)
    requires forall i :: 0 <= i < |t| ==> Pr2Six(t[i]) < 64
    ensures |DecodedBytes(t)| <= GroupBytes(|t|)
    decreases |t|
  {
    if |t| >= 4 {
      GroupStep(|t|);
      hide Pr2Six, Join1, Join2, Join3, GroupBytes;
      DecodedFits(t[4..]);
      assert |DecodedBytes(t)| == 3 + |DecodedBytes(t[4..])|;
    }
  }

  /** The last group is short by the characters that it misses; a lone character is none. */
  lemma LastGroup(t: seq<Byte>)
    requires |t| <= 4 && forall i :: 0 <= i < |t| ==> Pr2Six(t[i]) < 64
    ensures |DecodedBytes(t)| == GroupBytes(|t|) - (4 - |t|) % 4
  {
    hide Pr2Six, Join1, Join2, Join3;
    assert GroupBytes(0) == 0 && GroupBytes(1) == GroupBytes(2) == GroupBytes(3) == GroupBytes(4) == 3;
    if |t| == 4 {
      assert DecodedBytes(t[4..]) == [];
    }
    hide GroupBytes;
  }

  // ---------- round trip ----------

  lemma {:induction false} PrefixStep(t: seq<Byte>, k: nat)
    requires k <= |t| && forall i :: 0 <= i < k ==> Pr2Six(t[i]) < 64
    ensures CodingPrefix(t) == k + CodingPrefix(t[k..])
    decreases k
  {
    if k > 0 {
      assert t[1..][k - 1..] == t[k..];
      PrefixStep(t[1..], k - 1);
    }
  }

  lemma DecodeStep(t: seq<Byte>)
    requires |t| >= 4 && forall i :: 0 <= i < 4 ==> Pr2Six(t[i]) < 64
    ensures Decode(t) == [Join1(Pr2Six(t[0]), Pr2Six(t[1])), Join2(Pr2Six(t[1]), Pr2Six(t[2])),
                          Join3(Pr2Six(t[2]), Pr2Six(t[3]))] + Decode(t[4..])
  {
    PrefixStep(t, 4);
    assert t[..CodingPrefix(t)][4..] == t[4..][..CodingPrefix(t[4..])];
  }

  /** A group of four characters that starts with k coding ones and is filled up with padding. */
  lemma DecodePadded(t: seq<Byte>, k: nat)
    requires |t| == 4 && 2 <= k <= 3 && (forall i :: 0 <= i < k ==> Pr2Six(t[i]) < 64) && t[k] == PAD
    ensures Decode(t) == DecodedBytes(t[..k])
  {
    BasisInverse(0, 0);
    PrefixStep(t, k);
    assert t[k..][0] == PAD;
  }

  /** A padded group decodes to the bytes its values join to, and a full group to three bytes and the rest. */
  lemma DecodeGroups(p: Six, q: Six, r: Six, s: Six, rest: seq<Byte>)
    ensures Decode([Basis(p), Basis(q), PAD, PAD]) == [Join1(p, q)]
    ensures Decode([Basis(p), Basis(q), Basis(r), PAD]) == [Join1(p, q), Join2(q, r)]
    ensures Decode([Basis(p), Basis(q), Basis(r), Basis(s)] + rest) ==
            [Join1(p, q), Join2(q, r), Join3(r, s)] + Decode(rest)
  {
    BasisInverse(p, 0);
    BasisInverse(q, 0);
    BasisInverse(r, 0);
    BasisInverse(s, 0);
    hide Basis, Pr2Six, Join1, Join2, Join3, Decode;
    var two, three := [Basis(p), Basis(q), PAD, PAD], [Basis(p), Basis(q), Basis(r), PAD];
    DecodePadded(two, 2);
    assert two[..2] == [Basis(p), Basis(q)];
    DecodePadded(three, 3);
    assert three[..3] == [Basis(p), Basis(q), Basis(r)];
    var four := [Basis(p), Basis(q), Basis(r), Basis(s)] + rest;
    DecodeStep(four);
    assert four[4..] == rest;
  }

  /** Decoding an encoding gives back the bytes. */
  lemma {:induction false} RoundTrip(s: seq<Byte>)
    ensures Decode(EncodedText(s)) == s
    decreases |s|
  {
    hide Decode, Basis, First, Second, Third, Fourth, Join1, Join2, Join3;
    if |s| == 0 {
      DecodeNothing();
    } else if |s| == 1 {
      SplitJoin(s[0], 0, 0);
      DecodeGroups(First(s[0]), Second(s[0], 0), 0, 0, []);
    } else if |s| == 2 {
      SplitJoin(s[0], s[1], 0);
      DecodeGroups(First(s[0]), Second(s[0], s[1]), Third(s[1], 0), 0, []);
    } else {
      SplitJoin(s[0], s[1], s[2]);
      DecodeGroups(First(s[0]), Second(s[0], s[1]), Third(s[1], s[2]), Fourth(s[2]), EncodedText(s[3..]));
      RoundTrip(s[3..]);
      assert s == [s[0], s[1], s[2]] + s[3..];
    }
  }

  lemma DecodeNothing()
    ensures Decode([]) == []
  {
  }

  // ---------- the loops ----------

  /** apr_base64_encode_binary */
  method Encode(encoded: array<Byte>, s: seq<Byte>) returns (n: nat)
    requires encoded.Length >= EncodeLen(|s|)
    modifies encoded
    ensures n == EncodeLen(|s|) && encoded[..n] == EncodedText(s) + [0]
  {
    hide Basis, First, Second, Third, Fourth, EncodeLen, EncodedText;
    var i, p := 0, 0;
    EncodedLength(s);
    EncodeLenStep(0);
    assert s[0..] == s;
    while i + 2 < |s|
      invariant i <= |s| && p + EncodeLen(|s| - i) == EncodeLen(|s|)
      invariant encoded[..p] + EncodedText(s[i..]) == EncodedText(s)
    {
      ghost var before := encoded[..p];
      EncodeLenStep(|s| - i);
      EncodeGroup(encoded, p, s[i], s[i + 1], s[i + 2]);
      EncodedStep(before, s[i..]);
      assert s[i..][3..] == s[i + 3..];
      i, p := i + 3, p + 4;
    }
    if i < |s| {
      EncodeLast(encoded, p, s[i..]);
      p := p + 4;
    }
    encoded[p] := 0;
    n := p + 1;
    assert encoded[..n] == encoded[..p] + [0];
  }

  lemma EncodedStep(before: seq<Byte>, s: seq<Byte>)
    requires |s| >= 3
    ensures before + EncodedText(s) ==
            before + [Basis(First(s[0])), Basis(Second(s[0], s[1])), Basis(Third(s[1], s[2])), Basis(Fourth(s[2]))]
            + EncodedText(s[3..])
  {
  }

  method EncodeGroup(encoded: array<Byte>, p: nat, a: Byte, b: Byte, c: Byte)
    requires p + 4 <= encoded.Length
    modifies encoded
    ensures encoded[..p + 4] ==
            old(encoded[..p]) + [Basis(First(a)), Basis(Second(a, b)), Basis(Third(b, c)), Basis(Fourth(c))]
  {
    encoded[p] := Basis(a / 4);
    encoded[p + 1] := Basis(a % 4 * 16 + b / 16);
    encoded[p + 2] := Basis(b % 16 * 4 + c / 64);
    encoded[p + 3] := Basis(c % 64);
  }

  /** The last one or two bytes. */
  method EncodeLast(encoded: array<Byte>, p: nat, s: seq<Byte>)
    requires p + 4 <= encoded.Length && 1 <= |s| <= 2
    modifies encoded
    ensures encoded[..p + 4] == old(encoded[..p]) + EncodedText(s)
  {
    encoded[p] := Basis(s[0] / 4);
    if |s| == 1 {
      encoded[p + 1] := Basis(s[0] % 4 * 16);
      encoded[p + 2] := PAD;
    } else {
      encoded[p + 1] := Basis(s[0] % 4 * 16 + s[1] / 16);
      encoded[p + 2] := Basis(s[1] % 16 * 4);
    }
    encoded[p + 3] := PAD;
  }

  /** The scan that both decoding functions start with; t is a C string without its NUL. */
  method ScanCoding(t: seq<Byte>) returns (n: nat)
    ensures n == CodingPrefix(t)
  {
    n := 0;
    while (if n < |t| then Pr2Six(t[n]) else 64) <= 63
      invariant n <= |t| && forall i :: 0 <= i < n ==> Pr2Six(t[i]) < 64
      decreases |t| - n
    {
      n := n + 1;
    }
    PrefixStep(t, n);
    assert n < |t| ==> t[n..][0] == t[n];
  }

  /** apr_base64_decode_len */
  method ComputeDecodeLen(t: seq<Byte>) returns (n: nat)
    ensures n == DecodeLen(t)
  {
    n := ScanCoding(t);
    n := (n + 3) / 4 * 3 + 1;
  }

  /** apr_base64_decode_binary: any string decodes, and the result is the number of bytes written. */
  method DecodeBinary(plain: array<Byte>, t: seq<Byte>) returns (n: nat)
    requires plain.Length >= DecodeLen(t) - 1
    modifies plain
    ensures n < DecodeLen(t) && n == |Decode(t)| && plain[..n] == Decode(t)
  {
    var count := ScanCoding(t);
    ghost var code := t[..count];
    DecodedFits(code);
    hide Pr2Six, Join1, Join2, Join3, DecodedBytes;
    var i, left, p := DecodeWhole(plain, t, count);
    assert code[i..] == t[i..i + left];
    LastGroup(code[i..]);
    Remainder(plain, t, i, left, p);
    var total := (count + 3) / 4 * 3;
    n := total - (4 - left) % 4;
  }

  /** The loop over all groups but the last: i characters are done, left are not, and p bytes are written. */
  method DecodeWhole(plain: array<Byte>, t: seq<Byte>, count: nat) returns (i: nat, left: nat, p: nat)
    requires count <= |t| && forall k :: 0 <= k < count ==> Pr2Six(t[k]) < 64
    requires plain.Length >= |DecodedBytes(t[..count])|
    modifies plain
    ensures i + left == count && left <= 4 && p <= plain.Length
    ensures plain[..p] + DecodedBytes(t[..count][i..]) == DecodedBytes(t[..count])
    ensures GroupBytes(count) == p + GroupBytes(left)
  {
    hide Pr2Six, Join1, Join2, Join3, GroupBytes, DecodedBytes;
    ghost var code := t[..count];
    i, left, p := 0, count, 0;
    assert code[0..] == code;
    while left > 4
      invariant i + left == count && p + |DecodedBytes(code[i..])| == |DecodedBytes(code)|
      invariant GroupBytes(count) == p + GroupBytes(left)
      invariant plain[..p] + DecodedBytes(code[i..]) == DecodedBytes(code)
    {
      assert code[i..][4..] == code[i + 4..];
      ghost var before := plain[..p];
      DecodedStep(before, code[i..]);
      GroupStep(left);
      DecodeGroup(plain, p, Pr2Six(t[i]), Pr2Six(t[i + 1]), Pr2Six(t[i + 2]), Pr2Six(t[i + 3]));
      i, left, p := i + 4, left - 4, p + 3;
    }
  }

  lemma DecodedStep(before: seq<Byte>, t: seq<Byte>)
    requires |t| > 4 && forall i :: 0 <= i < |t| ==> Pr2Six(t[i]) < 64
    ensures before + DecodedBytes(t) ==
            before + [Join1(Pr2Six(t[0]), Pr2Six(t[1])), Join2(Pr2Six(t[1]), Pr2Six(t[2])),
                      Join3(Pr2Six(t[2]), Pr2Six(t[3]))]
            + DecodedBytes(t[4..])
  {
  }

  method DecodeGroup(plain: array<Byte>, p: nat, a: Six, b: Six, c: Six, d: Six)
    requires p + 3 <= plain.Length
    modifies plain
    ensures plain[..p + 3] == old(plain[..p]) + [Join1(a, b), Join2(b, c), Join3(c, d)]
  {
    plain[p] := Join1(a, b);
    plain[p + 1] := Join2(b, c);
    plain[p + 2] := Join3(c, d);
  }

  /** The last one to four characters. */
  method Remainder(plain: array<Byte>, t: seq<Byte>, i: nat, left: nat, p: nat)
    requires left <= 4 && i + left <= |t| && forall k :: i <= k < i + left ==> Pr2Six(t[k]) < 64
    requires p + |DecodedBytes(t[i..i + left])| <= plain.Length
    modifies plain
    ensures plain[..p + |DecodedBytes(t[i..i + left])|] == old(plain[..p]) + DecodedBytes(t[i..i + left])
  {
    if left > 1 {
      plain[p] := Join1(Pr2Six(t[i]), Pr2Six(t[i + 1]));
    }
    if left > 2 {
      plain[p + 1] := Join2(Pr2Six(t[i + 1]), Pr2Six(t[i + 2]));
    }
    if left > 3 {
      plain[p + 2] := Join3(Pr2Six(t[i + 2]), Pr2Six(t[i + 3]));
    }
  }
}
