/**
 The MD5 message digest as RFC 1321 defines it: the reference that the streaming
 implementation in Md5.dfy is proved against.
 */
module Md5Spec {

  type Byte = bv8
  type Word = bv32

  datatype Chain = Chain(a: Word, b: Word, c: Word, d: Word)

  // ----- section 3.4: the auxiliary functions and the 64 steps

  function F(x: Word, y: Word, z: Word): Word { (x & y) | (!x & z) }
  function G(x: Word, y: Word, z: Word): Word { (x & z) | (y & !z) }
  function H(x: Word, y: Word, z: Word): Word { x ^ y ^ z }
  function I(x: Word, y: Word, z: Word): Word { y ^ (x | !z) }

  function Aux(i: nat, x: Word, y: Word, z: Word): Word {
    if i < 16 then F(x, y, z) else if i < 32 then G(x, y, z) else if i < 48 then H(x, y, z) else I(x, y, z)
  }

  /** Which message word step i uses. */
  function K(i: nat): (k: nat)
    ensures k < 16
  {
    if i < 16 then i else if i < 32 then (5 * i + 1) % 16 else if i < 48 then (3 * i + 5) % 16 else (7 * i) % 16
  }

  /** How far step i rotates. */
  function S(i: nat): (s: bv6)
    ensures s < 32
  {
    var j := i % 4;
    if i < 16 then (if j == 0 then 7 else if j == 1 then 12 else if j == 2 then 17 else 22)
    else if i < 32 then (if j == 0 then 5 else if j == 1 then 9 else if j == 2 then 14 else 20)
    else if i < 48 then (if j == 0 then 4 else if j == 1 then 11 else if j == 2 then 16 else 23)
    else (if j == 0 then 6 else if j == 1 then 10 else if j == 2 then 15 else 21)
  }

  /** floor(2^32 * |sin(i + 1)|), one table per round. */
  function T(i: nat): Word
    requires i < 64
  {
    if i < 16 then T1(i) else if i < 32 then T2(i - 16) else if i < 48 then T3(i - 32) else T4(i - 48)
  }

  function T1(i: nat): Word {
    if i == 0 then 0xd76aa478 else if i == 1 then 0xe8c7b756 else if i == 2 then 0x242070db else
    if i == 3 then 0xc1bdceee else if i == 4 then 0xf57c0faf else if i == 5 then 0x4787c62a else
    if i == 6 then 0xa8304613 else if i == 7 then 0xfd469501 else if i == 8 then 0x698098d8 else
    if i == 9 then 0x8b44f7af else if i == 10 then 0xffff5bb1 else if i == 11 then 0x895cd7be else
    if i == 12 then 0x6b901122 else if i == 13 then 0xfd987193 else if i == 14 then 0xa679438e else 0x49b40821
  }

  function T2(i: nat): Word {
    if i == 0 then 0xf61e2562 else if i == 1 then 0xc040b340 else if i == 2 then 0x265e5a51 else
    if i == 3 then 0xe9b6c7aa else if i == 4 then 0xd62f105d else if i == 5 then 0x02441453 else
    if i == 6 then 0xd8a1e681 else if i == 7 then 0xe7d3fbc8 else if i == 8 then 0x21e1cde6 else
    if i == 9 then 0xc33707d6 else if i == 10 then 0xf4d50d87 else if i == 11 then 0x455a14ed else
    if i == 12 then 0xa9e3e905 else if i == 13 then 0xfcefa3f8 else if i == 14 then 0x676f02d9 else 0x8d2a4c8a
  }

  function T3(i: nat): Word {
    if i == 0 then 0xfffa3942 else if i == 1 then 0x8771f681 else if i == 2 then 0x6d9d6122 else
    if i == 3 then 0xfde5380c else if i == 4 then 0xa4beea44 else if i == 5 then 0x4bdecfa9 else
    if i == 6 then 0xf6bb4b60 else if i == 7 then 0xbebfbc70 else if i == 8 then 0x289b7ec6 else
    if i == 9 then 0xeaa127fa else if i == 10 then 0xd4ef3085 else if i == 11 then 0x04881d05 else
    if i == 12 then 0xd9d4d039 else if i == 13 then 0xe6db99e5 else if i == 14 then 0x1fa27cf8 else 0xc4ac5665
  }

  function T4(i: nat): Word {
    if i == 0 then 0xf4292244 else if i == 1 then 0x432aff97 else if i == 2 then 0xab9423a7 else
    if i == 3 then 0xfc93a039 else if i == 4 then 0x655b59c3 else if i == 5 then 0x8f0ccc92 else
    if i == 6 then 0xffeff47d else if i == 7 then 0x85845dd1 else if i == 8 then 0x6fa87e4f else
    if i == 9 then 0xfe2ce6e0 else if i == 10 then 0xa3014314 else if i == 11 then 0x4e0811a1 else
    if i == 12 then 0xf7537e82 else if i == 13 then 0xbd3af235 else if i == 14 then 0x2ad7d2bb else 0xeb86d391
  }

  /** Circular left shift, written X <<< s in the RFC. */
  function Rotl(w: Word, s: bv6): Word
    requires s <= 32
  {
    (w << s) | (w >> (32 - s))
  }

  /** b + ((a + f(b,c,d) + m + t) <<< s), the operation every step performs. */
  function Mix(a: Word, b: Word, f: Word, m: Word, t: Word, s: bv6): Word
    requires s <= 32
  {
    b + Rotl(a + f + m + t, s)
  }

  /** Step i in RFC notation [abcd k s i], after which the registers change roles. */
  function Step(i: nat, x: Chain, m: seq<Word>): Chain
    requires i < 64 && |m| == 16
  {
    Chain(x.d, Mix(x.a, x.b, Aux(i, x.b, x.c, x.d), m[K(i)], T(i), S(i)), x.b, x.c)
  }

  function Steps(n: nat, x: Chain, m: seq<Word>): Chain
    requires n <= 64 && |m| == 16
  {
    if n == 0 then x else Step(n - 1, Steps(n - 1, x, m), m)
  }

  function Plus(x: Word, y: Word): Word { x + y }

  function Add(x: Chain, y: Chain): Chain {
    Chain(Plus(x.a, y.a), Plus(x.b, y.b), Plus(x.c, y.c), Plus(x.d, y.d))
  }

  function Compress(x: Chain, m: seq<Word>): Chain
    requires |m| == 16
  {
    Add(Steps(64, x, m), x)
  }

  // ----- section 2: words are little-endian groups of four bytes

  function Join(b0: Byte, b1: Byte, b2: Byte, b3: Byte): Word {
    (b0 as Word) | ((b1 as Word) << 8) | ((b2 as Word) << 16) | ((b3 as Word) << 24)
  }

  function WordAt(s: seq<Byte>, k: nat): Word
    requires 4 * k + 4 <= |s|
  {
    Join(s[4 * k], s[4 * k + 1], s[4 * k + 2], s[4 * k + 3])
  }

  function Words(block: seq<Byte>): (m: seq<Word>)
    requires |block| == 64
    ensures |m| == 16
    ensures forall k :: 0 <= k < 16 ==> m[k] == WordAt(block, k)
  {
    seq(16, k requires 0 <= k < 16 => WordAt(block, k))
  }

  function WordBytes(w: Word): (s: seq<Byte>)
    ensures |s| == 4
  {
    [(w & 0xff) as Byte, ((w >> 8) & 0xff) as Byte, ((w >> 16) & 0xff) as Byte, (w >> 24) as Byte]
  }

  // ----- sections 3.1 to 3.5

  const INIT := Chain(0x67452301, 0xefcdab89, 0x98badcfe, 0x10325476)

  function Fold(x: Chain, data: seq<Byte>): Chain
    decreases |data|
  {
    if |data| < 64 then x else Fold(Compress(x, Words(data[..64])), data[64..])
  }

  function Zeros(n: nat): (s: seq<Byte>)
    ensures |s| == n
  {
    seq(n, _ => 0)
  }

  /** The n low-order bytes of v, least significant first. */
  function LittleEndian(v: nat, n: nat): (s: seq<Byte>)
    ensures |s| == n
  {
    if n == 0 then [] else [(v % 256) as Byte] + LittleEndian(v / 256, n - 1)
  }

  /** A one bit, then as few zero bits as reach 56 bytes modulo 64, then the bit length modulo 2^64. */
  function Padding(len: nat): (s: seq<Byte>)
    ensures |s| == if len % 64 < 56 then 64 - len % 64 else 128 - len % 64
  {
    var r := len % 64;
    [0x80] + Zeros(if r < 56 then 55 - r else 119 - r) + LittleEndian(len * 8, 8)
  }

  function Output(x: Chain): (s: seq<Byte>)
    ensures |s| == 16
  {
    WordBytes(x.a) + WordBytes(x.b) + WordBytes(x.c) + WordBytes(x.d)
  }

  function Digest(msg: seq<Byte>): (s: seq<Byte>)
    ensures |s| == 16
  {
    Output(Fold(INIT, msg + Padding(|msg|)))
  }

  // ----- folding block by block

  lemma {:induction false} FoldAppend(x: Chain, s: seq<Byte>, t: seq<Byte>)
    requires |s| % 64 == 0
    ensures Fold(x, s + t) == Fold(Fold(x, s), t)
    decreases |s|
  {
    if |s| == 0 {
      assert s + t == t;
    } else {
      assert (s + t)[..64] == s[..64];
      assert (s + t)[64..] == s[64..] + t;
      FoldAppend(Compress(x, Words(s[..64])), s[64..], t);
    }
  }
}
