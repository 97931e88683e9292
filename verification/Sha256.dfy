/**
 SHA-256 written as loops over arrays, against the definition of FIPS 180-4: functions and
 constants of sections 4.1.2, 4.2.2 and 5.3.3, padding of section 5.1.1, hash computation of
 section 6.2.2.
 */
module Sha256 {
  import Byte8

  type Byte = bv8
  type Word = bv32

  // ------------------------------------------------- section 4.1.2, with 3.2

  /** Addition modulo 2^32. */
  function Plus(x: Word, y: Word): Word {
    x + y
  }

  function Sum4(a: Word, b: Word, c: Word, d: Word): Word {
    a + b + c + d
  }

  function Ch(x: Word, y: Word, z: Word): Word {
    (x & y) ^ (!x & z)
  }

  function Maj(x: Word, y: Word, z: Word): Word {
    (x & y) ^ (x & z) ^ (y & z)
  }

  function BigSigma0(x: Word): Word {
    x.RotateRight(2) ^ x.RotateRight(13) ^ x.RotateRight(22)
  }

  function BigSigma1(x: Word): Word {
    x.RotateRight(6) ^ x.RotateRight(11) ^ x.RotateRight(25)
  }

  function SmallSigma0(x: Word): Word {
    x.RotateRight(7) ^ x.RotateRight(18) ^ (x >> 3)
  }

  function SmallSigma1(x: Word): Word {
    x.RotateRight(17) ^ x.RotateRight(19) ^ (x >> 10)
  }

  /** Section 3.2: a rotation is two shifts. */
  lemma RotateIsTwoShifts(x: Word)
    ensures x.RotateRight(2) == (x >> 2) | (x << 30) && x.RotateRight(13) == (x >> 13) | (x << 19)
    ensures x.RotateRight(22) == (x >> 22) | (x << 10) && x.RotateRight(6) == (x >> 6) | (x << 26)
    ensures x.RotateRight(11) == (x >> 11) | (x << 21) && x.RotateRight(25) == (x >> 25) | (x << 7)
    ensures x.RotateRight(7) == (x >> 7) | (x << 25) && x.RotateRight(18) == (x >> 18) | (x << 14)
    ensures x.RotateRight(17) == (x >> 17) | (x << 15) && x.RotateRight(19) == (x >> 19) | (x << 13)
  {
  }

  // ----------------------------------------------------------- section 6.2.2

  type Key = k: seq<Word> | |k| == 64 witness seq(64, _ => 0)
  type Block = m: seq<Word> | |m| == 16 witness seq(16, _ => 0)
  type State = h: seq<Word> | |h| == 8 witness seq(8, _ => 0)

  datatype Vars = Vars(a: Word, b: Word, c: Word, d: Word, e: Word, f: Word, g: Word, h: Word)

  function W(m: Block, t: nat): Word
    requires t < 64
  {
    if t < 16 then m[t]
    else Extended(W(m, t - 2), W(m, t - 7), W(m, t - 15), W(m, t - 16))
  }

  function Extended(w2: Word, w7: Word, w15: Word, w16: Word): Word {
    Sum4(SmallSigma1(w2), w7, SmallSigma0(w15), w16)
  }

  function Words(m: Block): (ws: seq<Word>)
    ensures |ws| == 64
  {
    seq(64, t requires 0 <= t < 64 => W(m, t))
  }

  function T1(e: Word, f: Word, g: Word, h: Word, k: Word, w: Word): Word {
    Plus(Plus(Plus(Plus(h, BigSigma1(e)), Ch(e, f, g)), k), w)
  }

  function T2(a: Word, b: Word, c: Word): Word {
    Plus(BigSigma0(a), Maj(a, b, c))
  }

  function Round(v: Vars, k: Word, w: Word): Vars {
    var t1 := T1(v.e, v.f, v.g, v.h, k, w);
    Vars(Plus(t1, T2(v.a, v.b, v.c)), v.a, v.b, v.c, Plus(v.d, t1), v.e, v.f, v.g)
  }

  function Rounds(key: seq<Word>, ws: seq<Word>, v: Vars): Vars
    requires |key| == |ws|
  {
    if key == [] then v
    else
      var t := |key| - 1;
      Round(Rounds(key[..t], ws[..t], v), key[t], ws[t])
  }

  function Start(h: State): Vars {
    Vars(h[0], h[1], h[2], h[3], h[4], h[5], h[6], h[7])
  }

  function Added(v: Vars, h: State): State {
    [Plus(h[0], v.a), Plus(h[1], v.b), Plus(h[2], v.c), Plus(h[3], v.d),
     Plus(h[4], v.e), Plus(h[5], v.f), Plus(h[6], v.g), Plus(h[7], v.h)]
  }

  function Compress(key: Key, h: State, m: Block): State {
    Added(Rounds(key, Words(m), Start(h)), h)
  }

  // ----------------------------------------- constants, sections 4.2.2 and 5.3.3

  const K_0: seq<nat> := [
    0x428a2f98, 0x71374491, 0xb5c0fbcf, 0xe9b5dba5, 0x3956c25b, 0x59f111f1, 0x923f82a4, 0xab1c5ed5,
    0xd807aa98, 0x12835b01, 0x243185be, 0x550c7dc3, 0x72be5d74, 0x80deb1fe, 0x9bdc06a7, 0xc19bf174]

  const K_16: seq<nat> := [
    0xe49b69c1, 0xefbe4786, 0x0fc19dc6, 0x240ca1cc, 0x2de92c6f, 0x4a7484aa, 0x5cb0a9dc, 0x76f988da,
    0x983e5152, 0xa831c66d, 0xb00327c8, 0xbf597fc7, 0xc6e00bf3, 0xd5a79147, 0x06ca6351, 0x14292967]

  const K_32: seq<nat> := [
    0x27b70a85, 0x2e1b2138, 0x4d2c6dfc, 0x53380d13, 0x650a7354, 0x766a0abb, 0x81c2c92e, 0x92722c85,
    0xa2bfe8a1, 0xa81a664b, 0xc24b8b70, 0xc76c51a3, 0xd192e819, 0xd6990624, 0xf40e3585, 0x106aa070]

  const K_48: seq<nat> := [
    0x19a4c116, 0x1e376c08, 0x2748774c, 0x34b0bcb5, 0x391c0cb3, 0x4ed8aa4a, 0x5b9cca4f, 0x682e6ff3,
    0x748f82ee, 0x78a5636f, 0x84c87814, 0x8cc70208, 0x90befffa, 0xa4506ceb, 0xbef9a3f7, 0xc67178f2]

  const H0: seq<nat> := [
    0x6a09e667, 0xbb67ae85, 0x3c6ef372, 0xa54ff53a, 0x510e527f, 0x9b05688c, 0x1f83d9ab, 0x5be0cd19]

  /** `k` is the first 32 bits after the point of the cube root of `p`, whose whole part is `whole`. */
  predicate CubeRootBits(p: nat, whole: nat, bits: nat, k: nat) {
    k == bits < 0x1_0000_0000 && CubeRoot(p * 0x1_0000_0000_0000_0000_0000_0000, whole * 0x1_0000_0000 + bits)
  }

  predicate CubeRoot(x: nat, n: nat) {
    n * n * n <= x < (n + 1) * (n + 1) * (n + 1)
  }

  predicate SquareRootBits(p: nat, whole: nat, bits: nat, k: nat) {
    k == bits < 0x1_0000_0000 && SquareRoot(p * 0x1_0000_0000_0000_0000, whole * 0x1_0000_0000 + bits)
  }

  predicate SquareRoot(x: nat, n: nat) {
    n * n <= x < (n + 1) * (n + 1)
  }

  /** The constants come from the cube roots of the first sixty-four primes. */
  lemma CubeRoots0()
    ensures |K_0| == 16
    ensures CubeRootBits(2, 1, 0x428a2f98, K_0[0]) && CubeRootBits(3, 1, 0x71374491, K_0[1])
    ensures CubeRootBits(5, 1, 0xb5c0fbcf, K_0[2]) && CubeRootBits(7, 1, 0xe9b5dba5, K_0[3])
    ensures CubeRootBits(11, 2, 0x3956c25b, K_0[4]) && CubeRootBits(13, 2, 0x59f111f1, K_0[5])
    ensures CubeRootBits(17, 2, 0x923f82a4, K_0[6]) && CubeRootBits(19, 2, 0xab1c5ed5, K_0[7])
    ensures CubeRootBits(23, 2, 0xd807aa98, K_0[8]) && CubeRootBits(29, 3, 0x12835b01, K_0[9])
    ensures CubeRootBits(31, 3, 0x243185be, K_0[10]) && CubeRootBits(37, 3, 0x550c7dc3, K_0[11])
    ensures CubeRootBits(41, 3, 0x72be5d74, K_0[12]) && CubeRootBits(43, 3, 0x80deb1fe, K_0[13])
    ensures CubeRootBits(47, 3, 0x9bdc06a7, K_0[14]) && CubeRootBits(53, 3, 0xc19bf174, K_0[15])
  {
  }

  lemma CubeRoots16()
    ensures |K_16| == 16
    ensures CubeRootBits(59, 3, 0xe49b69c1, K_16[0]) && CubeRootBits(61, 3, 0xefbe4786, K_16[1])
    ensures CubeRootBits(67, 4, 0x0fc19dc6, K_16[2]) && CubeRootBits(71, 4, 0x240ca1cc, K_16[3])
    ensures CubeRootBits(73, 4, 0x2de92c6f, K_16[4]) && CubeRootBits(79, 4, 0x4a7484aa, K_16[5])
    ensures CubeRootBits(83, 4, 0x5cb0a9dc, K_16[6]) && CubeRootBits(89, 4, 0x76f988da, K_16[7])
    ensures CubeRootBits(97, 4, 0x983e5152, K_16[8]) && CubeRootBits(101, 4, 0xa831c66d, K_16[9])
    ensures CubeRootBits(103, 4, 0xb00327c8, K_16[10]) && CubeRootBits(107, 4, 0xbf597fc7, K_16[11])
    ensures CubeRootBits(109, 4, 0xc6e00bf3, K_16[12]) && CubeRootBits(113, 4, 0xd5a79147, K_16[13])
    ensures CubeRootBits(127, 5, 0x06ca6351, K_16[14]) && CubeRootBits(131, 5, 0x14292967, K_16[15])
  {
  }

  lemma CubeRoots32()
    ensures |K_32| == 16
    ensures CubeRootBits(137, 5, 0x27b70a85, K_32[0]) && CubeRootBits(139, 5, 0x2e1b2138, K_32[1])
    ensures CubeRootBits(149, 5, 0x4d2c6dfc, K_32[2]) && CubeRootBits(151, 5, 0x53380d13, K_32[3])
    ensures CubeRootBits(157, 5, 0x650a7354, K_32[4]) && CubeRootBits(163, 5, 0x766a0abb, K_32[5])
    ensures CubeRootBits(167, 5, 0x81c2c92e, K_32[6]) && CubeRootBits(173, 5, 0x92722c85, K_32[7])
    ensures CubeRootBits(179, 5, 0xa2bfe8a1, K_32[8]) && CubeRootBits(181, 5, 0xa81a664b, K_32[9])
    ensures CubeRootBits(191, 5, 0xc24b8b70, K_32[10]) && CubeRootBits(193, 5, 0xc76c51a3, K_32[11])
    ensures CubeRootBits(197, 5, 0xd192e819, K_32[12]) && CubeRootBits(199, 5, 0xd6990624, K_32[13])
    ensures CubeRootBits(211, 5, 0xf40e3585, K_32[14]) && CubeRootBits(223, 6, 0x106aa070, K_32[15])
  {
  }

  lemma CubeRoots48()
    ensures |K_48| == 16
    ensures CubeRootBits(227, 6, 0x19a4c116, K_48[0]) && CubeRootBits(229, 6, 0x1e376c08, K_48[1])
    ensures CubeRootBits(233, 6, 0x2748774c, K_48[2]) && CubeRootBits(239, 6, 0x34b0bcb5, K_48[3])
    ensures CubeRootBits(241, 6, 0x391c0cb3, K_48[4]) && CubeRootBits(251, 6, 0x4ed8aa4a, K_48[5])
    ensures CubeRootBits(257, 6, 0x5b9cca4f, K_48[6]) && CubeRootBits(263, 6, 0x682e6ff3, K_48[7])
    ensures CubeRootBits(269, 6, 0x748f82ee, K_48[8]) && CubeRootBits(271, 6, 0x78a5636f, K_48[9])
    ensures CubeRootBits(277, 6, 0x84c87814, K_48[10]) && CubeRootBits(281, 6, 0x8cc70208, K_48[11])
    ensures CubeRootBits(283, 6, 0x90befffa, K_48[12]) && CubeRootBits(293, 6, 0xa4506ceb, K_48[13])
    ensures CubeRootBits(307, 6, 0xbef9a3f7, K_48[14]) && CubeRootBits(311, 6, 0xc67178f2, K_48[15])
  {
  }

  /** The first hash value comes from the square roots of the first eight. */
  lemma H0FromSquareRoots()
    ensures |H0| == 8
    ensures SquareRootBits(2, 1, 0x6a09e667, H0[0]) && SquareRootBits(3, 1, 0xbb67ae85, H0[1])
    ensures SquareRootBits(5, 2, 0x3c6ef372, H0[2]) && SquareRootBits(7, 2, 0xa54ff53a, H0[3])
    ensures SquareRootBits(11, 3, 0x510e527f, H0[4]) && SquareRootBits(13, 3, 0x9b05688c, H0[5])
    ensures SquareRootBits(17, 4, 0x1f83d9ab, H0[6]) && SquareRootBits(19, 4, 0x5be0cd19, H0[7])
  {
  }

  function Words32(bits: seq<nat>): (ws: seq<Word>)
    requires forall i :: 0 <= i < |bits| ==> bits[i] < 0x1_0000_0000
    ensures |ws| == |bits|
  {
    seq(|bits|, i requires 0 <= i < |bits| => bits[i] as Word)
  }

  lemma ConstantsFit()
    ensures |K_0 + K_16 + K_32 + K_48| == 64 && |H0| == 8
    ensures forall i :: 0 <= i < 64 ==> (K_0 + K_16 + K_32 + K_48)[i] < 0x1_0000_0000
    ensures forall i :: 0 <= i < 8 ==> H0[i] < 0x1_0000_0000
  {
  }

  function Constants(): Key {
    ConstantsFit();
    Words32(K_0 + K_16 + K_32 + K_48)
  }

  function InitialHash(): State {
    ConstantsFit();
    Words32(H0)
  }

  // ------------------------------------------------- words, blocks and padding

  /** Four bytes as a word, the first the most significant. */
  function WordOf(b0: Byte, b1: Byte, b2: Byte, b3: Byte): Word {
    (b0 as Word << 24) | (b1 as Word << 16) | (b2 as Word << 8) | b3 as Word
  }

  function BytesOf(w: Word): (bytes: seq<Byte>)
    ensures |bytes| == 4
  {
    [(w >> 24) as Byte, ((w >> 16) & 0xff) as Byte, ((w >> 8) & 0xff) as Byte, (w & 0xff) as Byte]
  }

  lemma BytesMakeWord(w: Word)
    ensures var bytes := BytesOf(w); WordOf(bytes[0], bytes[1], bytes[2], bytes[3]) == w
  {
  }

  function BlockAt(msg: seq<Byte>, i: nat): Block
    requires 64 * (i + 1) <= |msg|
  {
    seq(16, j requires 0 <= j < 16 =>
      WordOf(msg[64 * i + 4 * j], msg[64 * i + 4 * j + 1], msg[64 * i + 4 * j + 2], msg[64 * i + 4 * j + 3]))
  }

  function Blocks(key: Key, h0: State, msg: seq<Byte>, n: nat): State
    requires 64 * n <= |msg|
  {
    if n == 0 then h0 else Compress(key, Blocks(key, h0, msg, n - 1), BlockAt(msg, n - 1))
  }

  function Flat(h: seq<Word>): (bytes: seq<Byte>)
    ensures |bytes| == 4 * |h|
  {
    if h == [] then [] else Flat(h[..|h| - 1]) + BytesOf(h[|h| - 1])
  }

  const LIMIT: nat := 0x1_0000_0000_0000_0000

  /** The length in bits, held at the largest 64-bit number once it no longer fits. */
  function BitLength(n: nat): (bits: nat)
    ensures bits < LIMIT
  {
    if 8 * n < LIMIT then 8 * n else LIMIT - 1
  }

  /** The last `k` digits of `n` in base 256, the first the most significant. */
  function BigEndian(n: nat, k: nat): (bytes: seq<Byte>)
    ensures |bytes| == k
  {
    if k == 0 then [] else BigEndian(n / 256, k - 1) + [(n % 256) as Byte]
  }

  function LengthField(n: nat): seq<Byte> {
    BigEndian(BitLength(n), 8)
  }

  function Zeros(n: nat): seq<Byte> {
    seq(n, _ => 0)
  }

  /** Zero bytes between the 0x80 and the length. */
  function Fill(n: nat): nat {
    (55 - n) % 64
  }

  function Pad(input: seq<Byte>): seq<Byte> {
    input + [0x80] + Zeros(Fill(|input|)) + LengthField(|input|)
  }

  function Hash(key: Key, h0: State, input: seq<Byte>): seq<Byte> {
    PadLength(input);
    Flat(Blocks(key, h0, Pad(input), |Pad(input)| / 64))
  }

  /** `k` zero bits after the bit 1 leave room for 64 bits up to a multiple of 512. */
  ghost predicate Rounded(l: nat, k: nat) {
    (l + 1 + k) % 512 == 448
  }

  /** Section 5.1.1: `k` is the smallest number of zero bits that does so. */
  lemma FillIsSmallest(n: nat)
    ensures Rounded(8 * n, 7 + 8 * Fill(n))
    ensures forall j: nat :: Rounded(8 * n, j) ==> 7 + 8 * Fill(n) <= j
    ensures (n + 1 + Fill(n) + 8) % 64 == 0
  {
    var q := (55 - n) / 64;
    assert n + Fill(n) == 55 - 64 * q;
    assert 8 * n + 1 + 7 + 8 * Fill(n) == 448 + 512 * (-q);
    assert (448 + 512 * (-q)) % 512 == 448;
    assert (64 * (1 - q)) % 64 == 0;
    forall j: nat | Rounded(8 * n, j)
      ensures 7 + 8 * Fill(n) <= j
    {
      var r := (8 * n + 1 + j) / 512;
      assert 8 * n + 1 + j == 512 * r + 448;
      assert j == 7 + 8 * Fill(n) + 512 * (r + q);
    }
  }

  lemma PadLength(input: seq<Byte>)
    ensures |Pad(input)| == |input| + 1 + Fill(|input|) + 8 && |Pad(input)| % 64 == 0
  {
    FillIsSmallest(|input|);
  }

  function Value(bytes: seq<Byte>): nat {
    if bytes == [] then 0 else Value(bytes[..|bytes| - 1]) * 256 + bytes[|bytes| - 1] as nat
  }

  function Power(k: nat): nat {
    if k == 0 then 1 else 256 * Power(k - 1)
  }

  lemma {:induction false} ValueOfDigits(n: nat, k: nat)
    requires n < Power(k)
    ensures Value(BigEndian(n, k)) == n
  {
    if k > 0 {
      Byte8.ByteBack(n % 256);
      ValueOfDigits(n / 256, k - 1);
      assert BigEndian(n, k)[..k - 1] == BigEndian(n / 256, k - 1);
    }
  }

  lemma LimitIsPower()
    ensures Power(8) == LIMIT
  {
    assert Power(4) == 0x1_0000_0000;
    assert Power(6) == 0x1_0000_0000_0000;
  }

  function LengthRead(padded: seq<Byte>): nat
    requires |padded| >= 8
  {
    Value(padded[|padded| - 8..])
  }

  function Unpad(padded: seq<Byte>): seq<Byte>
    requires |padded| >= 8
  {
    var n := LengthRead(padded) / 8;
    if n <= |padded| then padded[..n] else padded
  }

  lemma TailIs(a: seq<Byte>, b: seq<Byte>)
    ensures (a + b)[|a + b| - |b|..] == b && (a + b)[..|a|] == a
  {
  }

  lemma LengthReads(input: seq<Byte>)
    ensures |Pad(input)| >= 8 && LengthRead(Pad(input)) == BitLength(|input|)
  {
    TailIs(input + [0x80] + Zeros(Fill(|input|)), LengthField(|input|));
    LimitIsPower();
    ValueOfDigits(BitLength(|input|), 8);
  }

  /** The last eight bytes say the length in bits, or the largest number they can. */
  lemma LengthSaid(input: seq<Byte>)
    ensures |Pad(input)| >= 8
    ensures LengthRead(Pad(input)) == if 8 * |input| < 0x1_0000_0000_0000_0000 then 8 * |input| else 0xffff_ffff_ffff_ffff
  {
    LengthReads(input);
  }

  const MOST: nat := 0x2000_0000_0000_0000

  lemma BytesCounted(n: nat)
    ensures BitLength(n) / 8 == if n < MOST then n else MOST - 1
  {
  }

  /** The padding can be taken off again exactly when the length in bits fits in 64 bits. */
  lemma UnpadIff(input: seq<Byte>)
    ensures |Pad(input)| >= 8
    ensures Unpad(Pad(input)) == input <==> |input| < MOST
  {
    LengthReads(input);
    PadLength(input);
    BytesCounted(|input|);
    if |input| < MOST {
      PadStarts(input);
    } else {
      assert |Unpad(Pad(input))| == MOST - 1;
    }
  }

  lemma PadStarts(input: seq<Byte>)
    ensures |Pad(input)| >= |input| && Pad(input)[..|input|] == input
  {
    var rest := [0x80] + Zeros(Fill(|input|)) + LengthField(|input|);
    assert Pad(input) == input + rest;
    TailIs(input, rest);
  }

  function DropZeros(s: seq<Byte>): seq<Byte> {
    if s != [] && s[|s| - 1] == 0 then DropZeros(s[..|s| - 1]) else s
  }

  /** The input again, without looking at the length field: eight bytes off, then the zeros, then the byte 0x80. */
  function Stripped(padded: seq<Byte>): seq<Byte>
    requires |padded| >= 8
  {
    var body := DropZeros(padded[..|padded| - 8]);
    if body == [] then [] else body[..|body| - 1]
  }

  lemma {:induction false} ZerosDrop(s: seq<Byte>, k: nat)
    requires s != [] && s[|s| - 1] != 0
    ensures DropZeros(s + Zeros(k)) == s
  {
    if k == 0 {
      assert s + Zeros(k) == s;
    } else {
      assert (s + Zeros(k))[..|s| + k - 1] == s + Zeros(k - 1);
      ZerosDrop(s, k - 1);
    }
  }

  /** The padding comes off at every length. */
  lemma PadStrips(input: seq<Byte>)
    ensures |Pad(input)| >= 8 && Stripped(Pad(input)) == input
  {
    var body := input + [0x80];
    TailIs(body + Zeros(Fill(|input|)), LengthField(|input|));
    ZerosDrop(body, Fill(|input|));
  }

  /** So no two inputs, however long, are padded to the same blocks. */
  lemma PadInjective(a: seq<Byte>, b: seq<Byte>)
    ensures Pad(a) == Pad(b) ==> a == b
  {
    PadStrips(a);
    PadStrips(b);
  }

  // ------------------------------------------------------------------- loops

  method AddPadding(input: seq<Byte>) returns (msg: seq<Byte>)
    ensures msg == Pad(input)
  {
    var bits := BitLength(|input|);
    msg := input + [0x80];
    ghost var n := 0;
    FillIsSmallest(|input|);
    while |msg| % 64 != 56
      invariant n <= Fill(|input|) && msg == input + [0x80] + Zeros(n)
      decreases Fill(|input|) - n
    {
      StillToFill(|input|, n);
      msg := msg + [0];
      n := n + 1;
    }
    StillToFill(|input|, n);
    msg := msg + BigEndian(bits, 8);
  }

  lemma StillToFill(len: nat, n: nat)
    requires n <= Fill(len)
    ensures (len + 1 + n) % 64 == 56 <==> n == Fill(len)
  {
    var q, short := (55 - len) / 64, Fill(len) - n;
    assert len + 1 + n == 64 * (-q) + (56 - short);
    assert 0 <= short < 64;
    if short <= 56 {
      assert (64 * (-q) + (56 - short)) % 64 == 56 - short;
    } else {
      assert (64 * (-q - 1) + (120 - short)) % 64 == 120 - short;
    }
  }

  lemma SumInOrder(x16: Word, s0: Word, x7: Word, s1: Word)
    ensures Sum4(x16, s0, x7, s1) == Sum4(s1, x7, s0, x16)
  {
  }

  method NextWord(w16: Word, w15: Word, w7: Word, w2: Word) returns (word: Word)
    ensures word == Extended(w2, w7, w15, w16)
  {
    var s0 := w15.RotateRight(7) ^ w15.RotateRight(18) ^ (w15 >> 3);
    var s1 := w2.RotateRight(17) ^ w2.RotateRight(19) ^ (w2 >> 10);
    assert s0 == SmallSigma0(w15);
    assert s1 == SmallSigma1(w2);
    SumInOrder(w16, s0, w7, s1);
    word := Sum4(w16, s0, w7, s1);
  }

  method LoadWords(msg: seq<Byte>, n: nat, w: array<Word>)
    requires 64 * (n + 1) <= |msg| && w.Length == 64
    modifies w
    ensures forall t :: 0 <= t < 16 ==> w[t] == W(BlockAt(msg, n), t)
  {
    for i := 0 to 16
      invariant forall t :: 0 <= t < i ==> w[t] == W(BlockAt(msg, n), t)
    {
      w[i] := WordOf(msg[64 * n + 4 * i], msg[64 * n + 4 * i + 1], msg[64 * n + 4 * i + 2], msg[64 * n + 4 * i + 3]);
    }
  }

  method Schedule(w: array<Word>, ghost m: Block)
    requires w.Length == 64 && forall t :: 0 <= t < 16 ==> w[t] == W(m, t)
    modifies w
    ensures w[..] == Words(m)
  {
    for i := 16 to 64
      invariant forall t :: 0 <= t < i ==> w[t] == W(m, t)
    {
      w[i] := NextWord(w[i - 16], w[i - 15], w[i - 7], w[i - 2]);
    }
  }

  method FirstSum(e: Word, f: Word, g: Word, h: Word, k: Word, w: Word) returns (t1: Word)
    ensures t1 == T1(e, f, g, h, k, w)
  {
    var s1 := e.RotateRight(6) ^ e.RotateRight(11) ^ e.RotateRight(25);
    assert s1 == BigSigma1(e);
    var ch := (e & f) ^ (!e & g);
    assert ch == Ch(e, f, g);
    t1 := Plus(Plus(Plus(Plus(h, s1), ch), k), w);
  }

  method SecondSum(a: Word, b: Word, c: Word) returns (t2: Word)
    ensures t2 == T2(a, b, c)
  {
    var s0 := a.RotateRight(2) ^ a.RotateRight(13) ^ a.RotateRight(22);
    assert s0 == BigSigma0(a);
    var maj := (a & b) ^ (a & c) ^ (b & c);
    assert maj == Maj(a, b, c);
    t2 := Plus(s0, maj);
  }

  method Shuffle(key: Key, h: array<Word>, w: array<Word>) returns (v: Vars)
    requires h.Length == 8 && w.Length == 64
    ensures v == Rounds(key, w[..], Start(h[..]))
  {
    var a, b, c, d := h[0], h[1], h[2], h[3];
    var e, f, g, hh := h[4], h[5], h[6], h[7];
    for i := 0 to 64
      invariant Vars(a, b, c, d, e, f, g, hh) == Rounds(key[..i], w[..i], Start(h[..]))
    {
      assert key[..i + 1][..i] == key[..i] && w[..i + 1][..i] == w[..i];
      var t1 := FirstSum(e, f, g, hh, key[i], w[i]);
      var t2 := SecondSum(a, b, c);
      hh := g;
      g := f;
      f := e;
      e := Plus(d, t1);
      d := c;
      c := b;
      b := a;
      a := Plus(t1, t2);
    }
    assert key[..64] == key && w[..64] == w[..];
    v := Vars(a, b, c, d, e, f, g, hh);
  }

  method WriteEight<T>(h: array<T>, next: seq<T>)
    requires h.Length == |next| == 8
    modifies h
    ensures h[..] == next
  {
    h[0], h[1], h[2], h[3] := next[0], next[1], next[2], next[3];
    h[4], h[5], h[6], h[7] := next[4], next[5], next[6], next[7];
  }

  method AddBlock(key: Key, h: array<Word>, w: array<Word>)
    requires h.Length == 8 && w.Length == 64 && h != w
    modifies h
    ensures h[..] == Added(Rounds(key, w[..], Start(old(h[..]))), old(h[..]))
  {
    var v := Shuffle(key, h, w);
    WriteEight(h, [Plus(h[0], v.a), Plus(h[1], v.b), Plus(h[2], v.c), Plus(h[3], v.d),
                   Plus(h[4], v.e), Plus(h[5], v.f), Plus(h[6], v.g), Plus(h[7], v.h)]);
  }

  method OneBlock(key: Key, h: array<Word>, w: array<Word>, msg: seq<Byte>, n: nat)
    requires 64 * (n + 1) <= |msg| && h.Length == 8 && w.Length == 64 && h != w
    modifies h, w
    ensures h[..] == Compress(key, old(h[..]), BlockAt(msg, n))
  {
    LoadWords(msg, n, w);
    Schedule(w, BlockAt(msg, n));
    AddBlock(key, h, w);
  }

  method WriteOut(h: array<Word>) returns (out: array<Byte>)
    requires h.Length == 8
    ensures fresh(out) && out[..] == Flat(h[..])
  {
    out := new Byte[32](_ => 0);
    for i := 0 to 8
      invariant out[..4 * i] == Flat(h[..i])
    {
      var bytes := BytesOf(h[i]);
      ghost var before := out[..4 * i];
      out[4 * i], out[4 * i + 1], out[4 * i + 2], out[4 * i + 3] := bytes[0], bytes[1], bytes[2], bytes[3];
      assert out[..4 * (i + 1)] == before + bytes;
      assert h[..i + 1][..i] == h[..i];
    }
    assert h[..8] == h[..] && out[..32] == out[..];
  }

  method AddBlocks(key: Key, h: array<Word>, msg: seq<Byte>)
    requires h.Length == 8 && |msg| % 64 == 0
    modifies h
    ensures h[..] == Blocks(key, old(h[..]), msg, |msg| / 64)
  {
    var w := new Word[64](_ => 0);
    for n := 0 to |msg| / 64
      invariant h[..] == Blocks(key, old(h[..]), msg, n)
    {
      OneBlock(key, h, w, msg, n);
    }
  }

  /** The digest is the one the standard defines, for inputs of any length. */
  method Digest(key: Key, h0: State, input: seq<Byte>) returns (out: array<Byte>)
    ensures fresh(out) && out[..] == Hash(key, h0, input)
  {
    var h := new Word[8](i requires 0 <= i < 8 => h0[i]);
    assert h[..] == h0;
    var msg := AddPadding(input);
    PadLength(input);
    AddBlocks(key, h, msg);
    out := WriteOut(h);
  }

  function Sum256(input: seq<Byte>): seq<Byte> {
    Hash(Constants(), InitialHash(), input)
  }

  method Sha256(input: seq<Byte>) returns (out: array<Byte>)
    ensures fresh(out) && out[..] == Sum256(input)
  {
    out := Digest(Constants(), InitialHash(), input);
  }
}
