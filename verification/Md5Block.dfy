/**
 The compression of blocks (glibc-2.27/crypt/md5-block.c), on hosts of either byte order.
 */
module Md5Block {
  import opened Md5Spec

  // ----- the optimised auxiliary functions and the step macro

  function FF(b: Word, c: Word, d: Word): Word { d ^ (b & (c ^ d)) }
  function FG(b: Word, c: Word, d: Word): Word { FF(d, b, c) }
  function FH(b: Word, c: Word, d: Word): Word { b ^ c ^ d }
  function FI(b: Word, c: Word, d: Word): Word { c ^ (b | !d) }

  function Op(f: Word, a: Word, b: Word, m: Word, s: bv6, t: Word): Word
    requires s <= 32
  {
    Rotl(a + (f + m + t), s) + b
  }

  lemma Select(b: Word, c: Word, d: Word)
    ensures d ^ (b & (c ^ d)) == (b & c) | (!b & d)
  {}

  lemma FFIsF(b: Word, c: Word, d: Word)
    ensures FF(b, c, d) == F(b, c, d)
  {
    Select(b, c, d);
  }

  lemma GIsF(b: Word, c: Word, d: Word)
    ensures G(b, c, d) == F(d, b, c)
  {}

  function Fun(i: nat, b: Word, c: Word, d: Word): Word {
    if i < 16 then FF(b, c, d) else if i < 32 then FG(b, c, d) else if i < 48 then FH(b, c, d) else FI(b, c, d)
  }

  /** The optimised functions are the ones of RFC 1321, section 3.4. */
  lemma FunIsAux(i: nat, b: Word, c: Word, d: Word)
    ensures Fun(i, b, c, d) == Aux(i, b, c, d)
  {
    hide FF, F, G;
    FFIsF(b, c, d);
    FFIsF(d, b, c);
    GIsF(b, c, d);
  }

  lemma OpIsMix(f: Word, a: Word, b: Word, m: Word, s: bv6, t: Word)
    requires s <= 32
    ensures Op(f, a, b, m, s, t) == Mix(a, b, f, m, t, s)
  {
    hide Rotl;
    assert a + (f + m + t) == a + f + m + t;
  }

  lemma OpIsStep(i: nat, a: Word, b: Word, c: Word, d: Word, m: seq<Word>, x: Chain)
    requires i < 64 && |m| == 16 && Chain(a, b, c, d) == Steps(i, x, m)
    ensures Steps(i + 1, x, m) == Chain(d, Op(Fun(i, b, c, d), a, b, m[K(i)], S(i), T(i)), b, c)
  {
    FunIsAux(i, b, c, d);
    OpIsMix(Fun(i, b, c, d), a, b, m[K(i)], S(i), T(i));
    hide Op, Mix, Aux, Fun, FF, FG;
  }

  lemma Table1()
    ensures K(0) == 0 && S(0) == 7 && T(0) == 0xd76aa478
    ensures K(1) == 1 && S(1) == 12 && T(1) == 0xe8c7b756
    ensures K(2) == 2 && S(2) == 17 && T(2) == 0x242070db
    ensures K(3) == 3 && S(3) == 22 && T(3) == 0xc1bdceee
    ensures K(4) == 4 && S(4) == 7 && T(4) == 0xf57c0faf
    ensures K(5) == 5 && S(5) == 12 && T(5) == 0x4787c62a
    ensures K(6) == 6 && S(6) == 17 && T(6) == 0xa8304613
    ensures K(7) == 7 && S(7) == 22 && T(7) == 0xfd469501
    ensures K(8) == 8 && S(8) == 7 && T(8) == 0x698098d8
    ensures K(9) == 9 && S(9) == 12 && T(9) == 0x8b44f7af
    ensures K(10) == 10 && S(10) == 17 && T(10) == 0xffff5bb1
    ensures K(11) == 11 && S(11) == 22 && T(11) == 0x895cd7be
    ensures K(12) == 12 && S(12) == 7 && T(12) == 0x6b901122
    ensures K(13) == 13 && S(13) == 12 && T(13) == 0xfd987193
    ensures K(14) == 14 && S(14) == 17 && T(14) == 0xa679438e
    ensures K(15) == 15 && S(15) == 22 && T(15) == 0x49b40821
  {}

  lemma Table2()
    ensures K(16) == 1 && S(16) == 5 && T(16) == 0xf61e2562
    ensures K(17) == 6 && S(17) == 9 && T(17) == 0xc040b340
    ensures K(18) == 11 && S(18) == 14 && T(18) == 0x265e5a51
    ensures K(19) == 0 && S(19) == 20 && T(19) == 0xe9b6c7aa
    ensures K(20) == 5 && S(20) == 5 && T(20) == 0xd62f105d
    ensures K(21) == 10 && S(21) == 9 && T(21) == 0x02441453
    ensures K(22) == 15 && S(22) == 14 && T(22) == 0xd8a1e681
    ensures K(23) == 4 && S(23) == 20 && T(23) == 0xe7d3fbc8
    ensures K(24) == 9 && S(24) == 5 && T(24) == 0x21e1cde6
    ensures K(25) == 14 && S(25) == 9 && T(25) == 0xc33707d6
    ensures K(26) == 3 && S(26) == 14 && T(26) == 0xf4d50d87
    ensures K(27) == 8 && S(27) == 20 && T(27) == 0x455a14ed
    ensures K(28) == 13 && S(28) == 5 && T(28) == 0xa9e3e905
    ensures K(29) == 2 && S(29) == 9 && T(29) == 0xfcefa3f8
    ensures K(30) == 7 && S(30) == 14 && T(30) == 0x676f02d9
    ensures K(31) == 12 && S(31) == 20 && T(31) == 0x8d2a4c8a
  {}

  lemma Table3()
    ensures K(32) == 5 && S(32) == 4 && T(32) == 0xfffa3942
    ensures K(33) == 8 && S(33) == 11 && T(33) == 0x8771f681
    ensures K(34) == 11 && S(34) == 16 && T(34) == 0x6d9d6122
    ensures K(35) == 14 && S(35) == 23 && T(35) == 0xfde5380c
    ensures K(36) == 1 && S(36) == 4 && T(36) == 0xa4beea44
    ensures K(37) == 4 && S(37) == 11 && T(37) == 0x4bdecfa9
    ensures K(38) == 7 && S(38) == 16 && T(38) == 0xf6bb4b60
    ensures K(39) == 10 && S(39) == 23 && T(39) == 0xbebfbc70
    ensures K(40) == 13 && S(40) == 4 && T(40) == 0x289b7ec6
    ensures K(41) == 0 && S(41) == 11 && T(41) == 0xeaa127fa
    ensures K(42) == 3 && S(42) == 16 && T(42) == 0xd4ef3085
    ensures K(43) == 6 && S(43) == 23 && T(43) == 0x04881d05
    ensures K(44) == 9 && S(44) == 4 && T(44) == 0xd9d4d039
    ensures K(45) == 12 && S(45) == 11 && T(45) == 0xe6db99e5
    ensures K(46) == 15 && S(46) == 16 && T(46) == 0x1fa27cf8
    ensures K(47) == 2 && S(47) == 23 && T(47) == 0xc4ac5665
  {}

  lemma Table4()
    ensures K(48) == 0 && S(48) == 6 && T(48) == 0xf4292244
    ensures K(49) == 7 && S(49) == 10 && T(49) == 0x432aff97
    ensures K(50) == 14 && S(50) == 15 && T(50) == 0xab9423a7
    ensures K(51) == 5 && S(51) == 21 && T(51) == 0xfc93a039
    ensures K(52) == 12 && S(52) == 6 && T(52) == 0x655b59c3
    ensures K(53) == 3 && S(53) == 10 && T(53) == 0x8f0ccc92
    ensures K(54) == 10 && S(54) == 15 && T(54) == 0xffeff47d
    ensures K(55) == 1 && S(55) == 21 && T(55) == 0x85845dd1
    ensures K(56) == 8 && S(56) == 6 && T(56) == 0x6fa87e4f
    ensures K(57) == 15 && S(57) == 10 && T(57) == 0xfe2ce6e0
    ensures K(58) == 6 && S(58) == 15 && T(58) == 0xa3014314
    ensures K(59) == 13 && S(59) == 21 && T(59) == 0x4e0811a1
    ensures K(60) == 4 && S(60) == 6 && T(60) == 0xf7537e82
    ensures K(61) == 11 && S(61) == 10 && T(61) == 0xbd3af235
    ensures K(62) == 2 && S(62) == 15 && T(62) == 0x2ad7d2bb
    ensures K(63) == 9 && S(63) == 21 && T(63) == 0xeb86d391
  {}

  /** The first sixteen operations, registers in place. */
  method Round1(w: seq<Word>, a0: Word, b0: Word, c0: Word, d0: Word, ghost x: Chain)
    returns (a: Word, b: Word, c: Word, d: Word)
    requires |w| == 16 && Chain(a0, b0, c0, d0) == Steps(0, x, w)
    ensures Chain(a, b, c, d) == Steps(16, x, w)
  {
    Table1();
    hide Op, Steps, FF, FG, FH, FI, K, S, T;
    a, b, c, d := a0, b0, c0, d0;
    OpIsStep(0, a, b, c, d, w, x); a := Op(FF(b, c, d), a, b, w[0], 7, 0xd76aa478);
    OpIsStep(1, d, a, b, c, w, x); d := Op(FF(a, b, c), d, a, w[1], 12, 0xe8c7b756);
    OpIsStep(2, c, d, a, b, w, x); c := Op(FF(d, a, b), c, d, w[2], 17, 0x242070db);
    OpIsStep(3, b, c, d, a, w, x); b := Op(FF(c, d, a), b, c, w[3], 22, 0xc1bdceee);
    OpIsStep(4, a, b, c, d, w, x); a := Op(FF(b, c, d), a, b, w[4], 7, 0xf57c0faf);
    OpIsStep(5, d, a, b, c, w, x); d := Op(FF(a, b, c), d, a, w[5], 12, 0x4787c62a);
    OpIsStep(6, c, d, a, b, w, x); c := Op(FF(d, a, b), c, d, w[6], 17, 0xa8304613);
    OpIsStep(7, b, c, d, a, w, x); b := Op(FF(c, d, a), b, c, w[7], 22, 0xfd469501);
    OpIsStep(8, a, b, c, d, w, x); a := Op(FF(b, c, d), a, b, w[8], 7, 0x698098d8);
    OpIsStep(9, d, a, b, c, w, x); d := Op(FF(a, b, c), d, a, w[9], 12, 0x8b44f7af);
    OpIsStep(10, c, d, a, b, w, x); c := Op(FF(d, a, b), c, d, w[10], 17, 0xffff5bb1);
    OpIsStep(11, b, c, d, a, w, x); b := Op(FF(c, d, a), b, c, w[11], 22, 0x895cd7be);
    OpIsStep(12, a, b, c, d, w, x); a := Op(FF(b, c, d), a, b, w[12], 7, 0x6b901122);
    OpIsStep(13, d, a, b, c, w, x); d := Op(FF(a, b, c), d, a, w[13], 12, 0xfd987193);
    OpIsStep(14, c, d, a, b, w, x); c := Op(FF(d, a, b), c, d, w[14], 17, 0xa679438e);
    OpIsStep(15, b, c, d, a, w, x); b := Op(FF(c, d, a), b, c, w[15], 22, 0x49b40821);
  }

  /** The second sixteen operations, registers in place. */
  method Round2(w: seq<Word>, a0: Word, b0: Word, c0: Word, d0: Word, ghost x: Chain)
    returns (a: Word, b: Word, c: Word, d: Word)
    requires |w| == 16 && Chain(a0, b0, c0, d0) == Steps(16, x, w)
    ensures Chain(a, b, c, d) == Steps(32, x, w)
  {
    Table2();
    hide Op, Steps, FF, FG, FH, FI, K, S, T;
    a, b, c, d := a0, b0, c0, d0;
    OpIsStep(16, a, b, c, d, w, x); a := Op(FG(b, c, d), a, b, w[1], 5, 0xf61e2562);
    OpIsStep(17, d, a, b, c, w, x); d := Op(FG(a, b, c), d, a, w[6], 9, 0xc040b340);
    OpIsStep(18, c, d, a, b, w, x); c := Op(FG(d, a, b), c, d, w[11], 14, 0x265e5a51);
    OpIsStep(19, b, c, d, a, w, x); b := Op(FG(c, d, a), b, c, w[0], 20, 0xe9b6c7aa);
    OpIsStep(20, a, b, c, d, w, x); a := Op(FG(b, c, d), a, b, w[5], 5, 0xd62f105d);
    OpIsStep(21, d, a, b, c, w, x); d := Op(FG(a, b, c), d, a, w[10], 9, 0x02441453);
    OpIsStep(22, c, d, a, b, w, x); c := Op(FG(d, a, b), c, d, w[15], 14, 0xd8a1e681);
    OpIsStep(23, b, c, d, a, w, x); b := Op(FG(c, d, a), b, c, w[4], 20, 0xe7d3fbc8);
    OpIsStep(24, a, b, c, d, w, x); a := Op(FG(b, c, d), a, b, w[9], 5, 0x21e1cde6);
    OpIsStep(25, d, a, b, c, w, x); d := Op(FG(a, b, c), d, a, w[14], 9, 0xc33707d6);
    OpIsStep(26, c, d, a, b, w, x); c := Op(FG(d, a, b), c, d, w[3], 14, 0xf4d50d87);
    OpIsStep(27, b, c, d, a, w, x); b := Op(FG(c, d, a), b, c, w[8], 20, 0x455a14ed);
    OpIsStep(28, a, b, c, d, w, x); a := Op(FG(b, c, d), a, b, w[13], 5, 0xa9e3e905);
    OpIsStep(29, d, a, b, c, w, x); d := Op(FG(a, b, c), d, a, w[2], 9, 0xfcefa3f8);
    OpIsStep(30, c, d, a, b, w, x); c := Op(FG(d, a, b), c, d, w[7], 14, 0x676f02d9);
    OpIsStep(31, b, c, d, a, w, x); b := Op(FG(c, d, a), b, c, w[12], 20, 0x8d2a4c8a);
  }

  /** The third sixteen operations, registers in place. */
  method Round3(w: seq<Word>, a0: Word, b0: Word, c0: Word, d0: Word, ghost x: Chain)
    returns (a: Word, b: Word, c: Word, d: Word)
    requires |w| == 16 && Chain(a0, b0, c0, d0) == Steps(32, x, w)
    ensures Chain(a, b, c, d) == Steps(48, x, w)
  {
    Table3();
    hide Op, Steps, FF, FG, FH, FI, K, S, T;
    a, b, c, d := a0, b0, c0, d0;
    OpIsStep(32, a, b, c, d, w, x); a := Op(FH(b, c, d), a, b, w[5], 4, 0xfffa3942);
    OpIsStep(33, d, a, b, c, w, x); d := Op(FH(a, b, c), d, a, w[8], 11, 0x8771f681);
    OpIsStep(34, c, d, a, b, w, x); c := Op(FH(d, a, b), c, d, w[11], 16, 0x6d9d6122);
    OpIsStep(35, b, c, d, a, w, x); b := Op(FH(c, d, a), b, c, w[14], 23, 0xfde5380c);
    OpIsStep(36, a, b, c, d, w, x); a := Op(FH(b, c, d), a, b, w[1], 4, 0xa4beea44);
    OpIsStep(37, d, a, b, c, w, x); d := Op(FH(a, b, c), d, a, w[4], 11, 0x4bdecfa9);
    OpIsStep(38, c, d, a, b, w, x); c := Op(FH(d, a, b), c, d, w[7], 16, 0xf6bb4b60);
    OpIsStep(39, b, c, d, a, w, x); b := Op(FH(c, d, a), b, c, w[10], 23, 0xbebfbc70);
    OpIsStep(40, a, b, c, d, w, x); a := Op(FH(b, c, d), a, b, w[13], 4, 0x289b7ec6);
    OpIsStep(41, d, a, b, c, w, x); d := Op(FH(a, b, c), d, a, w[0], 11, 0xeaa127fa);
    OpIsStep(42, c, d, a, b, w, x); c := Op(FH(d, a, b), c, d, w[3], 16, 0xd4ef3085);
    OpIsStep(43, b, c, d, a, w, x); b := Op(FH(c, d, a), b, c, w[6], 23, 0x04881d05);
    OpIsStep(44, a, b, c, d, w, x); a := Op(FH(b, c, d), a, b, w[9], 4, 0xd9d4d039);
    OpIsStep(45, d, a, b, c, w, x); d := Op(FH(a, b, c), d, a, w[12], 11, 0xe6db99e5);
    OpIsStep(46, c, d, a, b, w, x); c := Op(FH(d, a, b), c, d, w[15], 16, 0x1fa27cf8);
    OpIsStep(47, b, c, d, a, w, x); b := Op(FH(c, d, a), b, c, w[2], 23, 0xc4ac5665);
  }

  /** The fourth sixteen operations, registers in place. */
  method Round4(w: seq<Word>, a0: Word, b0: Word, c0: Word, d0: Word, ghost x: Chain)
    returns (a: Word, b: Word, c: Word, d: Word)
    requires |w| == 16 && Chain(a0, b0, c0, d0) == Steps(48, x, w)
    ensures Chain(a, b, c, d) == Steps(64, x, w)
  {
    Table4();
    hide Op, Steps, FF, FG, FH, FI, K, S, T;
    a, b, c, d := a0, b0, c0, d0;
    OpIsStep(48, a, b, c, d, w, x); a := Op(FI(b, c, d), a, b, w[0], 6, 0xf4292244);
    OpIsStep(49, d, a, b, c, w, x); d := Op(FI(a, b, c), d, a, w[7], 10, 0x432aff97);
    OpIsStep(50, c, d, a, b, w, x); c := Op(FI(d, a, b), c, d, w[14], 15, 0xab9423a7);
    OpIsStep(51, b, c, d, a, w, x); b := Op(FI(c, d, a), b, c, w[5], 21, 0xfc93a039);
    OpIsStep(52, a, b, c, d, w, x); a := Op(FI(b, c, d), a, b, w[12], 6, 0x655b59c3);
    OpIsStep(53, d, a, b, c, w, x); d := Op(FI(a, b, c), d, a, w[3], 10, 0x8f0ccc92);
    OpIsStep(54, c, d, a, b, w, x); c := Op(FI(d, a, b), c, d, w[10], 15, 0xffeff47d);
    OpIsStep(55, b, c, d, a, w, x); b := Op(FI(c, d, a), b, c, w[1], 21, 0x85845dd1);
    OpIsStep(56, a, b, c, d, w, x); a := Op(FI(b, c, d), a, b, w[8], 6, 0x6fa87e4f);
    OpIsStep(57, d, a, b, c, w, x); d := Op(FI(a, b, c), d, a, w[15], 10, 0xfe2ce6e0);
    OpIsStep(58, c, d, a, b, w, x); c := Op(FI(d, a, b), c, d, w[6], 15, 0xa3014314);
    OpIsStep(59, b, c, d, a, w, x); b := Op(FI(c, d, a), b, c, w[13], 21, 0x4e0811a1);
    OpIsStep(60, a, b, c, d, w, x); a := Op(FI(b, c, d), a, b, w[4], 6, 0xf7537e82);
    OpIsStep(61, d, a, b, c, w, x); d := Op(FI(a, b, c), d, a, w[11], 10, 0xbd3af235);
    OpIsStep(62, c, d, a, b, w, x); c := Op(FI(d, a, b), c, d, w[2], 15, 0x2ad7d2bb);
    OpIsStep(63, b, c, d, a, w, x); b := Op(FI(c, d, a), b, c, w[9], 21, 0xeb86d391);
  }

  // ----- host byte order

  /** The SWAP macro on a big-endian host. */
  function Swap(n: Word): Word {
    (n << 24) | ((n & 0xff00) << 8) | ((n >> 8) & 0xff00) | (n >> 24)
  }

  function FromHost(bigEndian: bool, w: Word): Word {
    if bigEndian then Swap(w) else w
  }

  /** The bytes of a word as the host stores it. */
  function HostBytes(bigEndian: bool, w: Word): (s: seq<Byte>)
    ensures |s| == 4
  {
    var s := WordBytes(w);
    if bigEndian then [s[3], s[2], s[1], s[0]] else s
  }

  /** The k-th word of s as the host loads it. */
  function HostWord(bigEndian: bool, s: seq<Byte>, k: nat): Word
    requires 4 * k + 4 <= |s|
  {
    Loaded(bigEndian, s[4 * k], s[4 * k + 1], s[4 * k + 2], s[4 * k + 3])
  }

  /** Four bytes in memory as the host loads them. */
  function Loaded(bigEndian: bool, b0: Byte, b1: Byte, b2: Byte, b3: Byte): Word {
    if bigEndian then Join(b3, b2, b1, b0) else Join(b0, b1, b2, b3)
  }

  lemma SwapBytes(w: Word)
    ensures var s, t := WordBytes(w), WordBytes(Swap(w)); t == [s[3], s[2], s[1], s[0]]
  {
    assert ((Swap(w) >> 8) & 0xff) as Byte == ((w >> 16) & 0xff) as Byte;
    assert ((Swap(w) >> 16) & 0xff) as Byte == ((w >> 8) & 0xff) as Byte;
  }

  lemma BytesOfJoin(b0: Byte, b1: Byte, b2: Byte, b3: Byte)
    ensures var w := Join(b0, b1, b2, b3);
            && (w & 0xff) as Byte == b0 && ((w >> 8) & 0xff) as Byte == b1
            && ((w >> 16) & 0xff) as Byte == b2 && (w >> 24) as Byte == b3
  {}

  lemma SwapJoin(b0: Byte, b1: Byte, b2: Byte, b3: Byte)
    ensures Swap(Join(b3, b2, b1, b0)) == Join(b0, b1, b2, b3)
  {}

  /** Loads yield the little-endian word on a host of either byte order. */
  lemma LoadIsWord(bigEndian: bool, b0: Byte, b1: Byte, b2: Byte, b3: Byte)
    ensures FromHost(bigEndian, Loaded(bigEndian, b0, b1, b2, b3)) == Join(b0, b1, b2, b3)
  {
    hide Swap, Join;
    SwapJoin(b0, b1, b2, b3);
  }

  /** Stores leave the little-endian bytes on a host of either byte order. */
  lemma StoreIsWordBytes(bigEndian: bool, w: Word)
    ensures HostBytes(bigEndian, FromHost(bigEndian, w)) == WordBytes(w)
  {
    SwapBytes(w);
    hide Swap;
  }

  // ----- blocks

  lemma NoSteps(x: Chain, m: seq<Word>)
    requires |m| == 16
    ensures Steps(0, x, m) == x
  {}

  method CompressBlock(words: seq<Word>, A: Word, B: Word, C: Word, D: Word)
    returns (a: Word, b: Word, c: Word, d: Word)
    requires |words| == 16
    ensures Chain(a, b, c, d) == Compress(Chain(A, B, C, D), words)
  {
    hide Steps, Plus;
    ghost var x := Chain(A, B, C, D);
    NoSteps(x, words);
    a, b, c, d := Round1(words, A, B, C, D, x);
    a, b, c, d := Round2(words, a, b, c, d, x);
    a, b, c, d := Round3(words, a, b, c, d, x);
    a, b, c, d := Round4(words, a, b, c, d, x);
    a, b, c, d := Plus(a, A), Plus(b, B), Plus(c, C), Plus(d, D);
  }

  method CompressBlocks(bigEndian: bool, data: seq<Byte>, a: Word, b: Word, c: Word, d: Word)
    returns (A: Word, B: Word, C: Word, D: Word)
    requires |data| % 64 == 0
    ensures Chain(A, B, C, D) == Fold(Chain(a, b, c, d), data)
  {
    hide Compress, Fold;
    A, B, C, D := a, b, c, d;
    ghost var start := Chain(a, b, c, d);
    var pos := 0;
    FoldNothing(start, data);
    while pos < |data|
      invariant 0 <= pos <= |data| && pos % 64 == 0
      invariant Chain(A, B, C, D) == Fold(start, data[..pos])
    {
      var words := LoadWords(bigEndian, data[pos..pos + 64]);
      A, B, C, D := CompressBlock(words, A, B, C, D);
      FoldBlock(start, data, pos);
      pos := pos + 64;
    }
    assert data[..pos] == data;
  }

  lemma FoldNothing(x: Chain, data: seq<Byte>)
    ensures Fold(x, data[..0]) == x
  {}

  lemma FoldBlock(x: Chain, data: seq<Byte>, pos: nat)
    requires pos % 64 == 0 && pos + 64 <= |data|
    ensures Fold(x, data[..pos + 64]) == Compress(Fold(x, data[..pos]), Words(data[pos..pos + 64]))
  {
    assert data[..pos + 64] == data[..pos] + data[pos..pos + 64];
    FoldAppend(x, data[..pos], data[pos..pos + 64]);
    var y, block := Fold(x, data[..pos]), data[pos..pos + 64];
    assert block[..64] == block && block[64..] == [];
    hide Compress;
    assert Fold(y, block) == Fold(Compress(y, Words(block)), []);
  }

  /** The words of a block in host order, swapped where the host is big-endian. */
  method LoadWords(bigEndian: bool, block: seq<Byte>) returns (words: seq<Word>)
    requires |block| == 64
    ensures words == Words(block)
  {
    words := [];
    hide FromHost, Loaded, Join;
    for k := 0 to 16
      invariant |words| == k
      invariant forall i :: 0 <= i < k ==> words[i] == WordAt(block, i)
    {
      LoadIsWord(bigEndian, block[4 * k], block[4 * k + 1], block[4 * k + 2], block[4 * k + 3]);
      words := words + [FromHost(bigEndian, HostWord(bigEndian, block, k))];
    }
  }
}
