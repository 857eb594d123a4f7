/**
 A known digest: "abc", from the test suite of RFC 1321 (appendix A.5).
 */
module Md5Known {
  import opened Md5Spec
  import opened Md5Block

  /** "abc" with its padding, as words. */
  ghost predicate IsBlock(m: seq<Word>) {
    && |m| == 16 && m[0] == 0x80636261 && m[14] == 24
    && forall k :: 0 < k < 16 && k != 14 ==> m[k] == 0
  }

  /** Section 3.3 of RFC 1321: the initial registers, low-order bytes first. */
  lemma InitBytes()
    ensures Output(INIT)
         == [0x01, 0x23, 0x45, 0x67, 0x89, 0xab, 0xcd, 0xef, 0xfe, 0xdc, 0xba, 0x98, 0x76, 0x54, 0x32, 0x10]
  {}

  /** One step, given the word, the constant and the shift of its place. */
  lemma Took(i: nat, x: Chain, m: seq<Word>, w: Word, t: Word, s: bv6, b: Word)
    requires i < 64 && |m| == 16 && s < 32 && Steps(i, INIT, m) == x
    requires m[K(i)] == w && T(i) == t && S(i) == s && Mix(x.a, x.b, Aux(i, x.b, x.c, x.d), w, t, s) == b
    ensures Steps(i + 1, INIT, m) == Chain(x.d, b, x.b, x.c)
  {
    hide K, T, S, Mix, Aux;
  }

  lemma Known1(m: seq<Word>)
    requires IsBlock(m)
    ensures Steps(16, INIT, m) == Chain(0xdda9b9a6, 0x72aff2e0, 0xe396856b, 0xa1051895)
  {
    hide Steps, K, S, T;
    Table1();
    NoSteps(m);
    Took(0, Chain(0x67452301, 0xefcdab89, 0x98badcfe, 0x10325476), m, 0x80636261, 0xd76aa478, 7, 0xd6d117b4);
    Took(1, Chain(0x10325476, 0xd6d117b4, 0xefcdab89, 0x98badcfe), m, 0, 0xe8c7b756, 12, 0x344a8432);
    Took(2, Chain(0x98badcfe, 0x344a8432, 0xd6d117b4, 0xefcdab89), m, 0, 0x242070db, 17, 0x2f6fbd72);
    Took(3, Chain(0xefcdab89, 0x2f6fbd72, 0x344a8432, 0xd6d117b4), m, 0, 0xc1bdceee, 22, 0x7ad956f2);
    Took(4, Chain(0xd6d117b4, 0x7ad956f2, 0x2f6fbd72, 0x344a8432), m, 0, 0xf57c0faf, 7, 0xc73741ef);
    Took(5, Chain(0x344a8432, 0xc73741ef, 0x7ad956f2, 0x2f6fbd72), m, 0, 0x4787c62a, 12, 0x8bac3051);
    Took(6, Chain(0x2f6fbd72, 0x8bac3051, 0xc73741ef, 0x7ad956f2), m, 0, 0xa8304613, 17, 0x207dc67b);
    Took(7, Chain(0x7ad956f2, 0x207dc67b, 0x8bac3051, 0xc73741ef), m, 0, 0xfd469501, 22, 0x928d99f6);
    Took(8, Chain(0xc73741ef, 0x928d99f6, 0x207dc67b, 0x8bac3051), m, 0, 0x698098d8, 7, 0x854b3712);
    Took(9, Chain(0x8bac3051, 0x854b3712, 0x928d99f6, 0x207dc67b), m, 0, 0x8b44f7af, 12, 0x74e2f284);
    Took(10, Chain(0x207dc67b, 0x74e2f284, 0x854b3712, 0x928d99f6), m, 0, 0xffff5bb1, 17, 0x3020401c);
    Took(11, Chain(0x928d99f6, 0x3020401c, 0x74e2f284, 0x854b3712), m, 0, 0x895cd7be, 22, 0x5ed49596);
    Took(12, Chain(0x854b3712, 0x5ed49596, 0x3020401c, 0x74e2f284), m, 0, 0x6b901122, 7, 0xdda9b9a6);
    Took(13, Chain(0x74e2f284, 0xdda9b9a6, 0x5ed49596, 0x3020401c), m, 0, 0xfd987193, 12, 0xa1051895);
    Took(14, Chain(0x3020401c, 0xa1051895, 0xdda9b9a6, 0x5ed49596), m, 0x00000018, 0xa679438e, 17, 0xe396856b);
    Took(15, Chain(0x5ed49596, 0xe396856b, 0xa1051895, 0xdda9b9a6), m, 0, 0x49b40821, 22, 0x72aff2e0);
  }

  lemma Known2(m: seq<Word>)
    requires IsBlock(m) && Steps(16, INIT, m) == Chain(0xdda9b9a6, 0x72aff2e0, 0xe396856b, 0xa1051895)
    ensures Steps(32, INIT, m) == Chain(0x790a77fb, 0x726342d3, 0xa62884aa, 0x9f47e4f8)
  {
    hide Steps, K, S, T;
    Table2();
    Took(16, Chain(0xdda9b9a6, 0x72aff2e0, 0xe396856b, 0xa1051895), m, 0, 0xf61e2562, 5, 0x3e9e9126);
    Took(17, Chain(0xa1051895, 0x3e9e9126, 0x72aff2e0, 0xe396856b), m, 0, 0xc040b340, 9, 0x4a1d804e);
    Took(18, Chain(0xe396856b, 0x4a1d804e, 0x3e9e9126, 0x72aff2e0), m, 0, 0x265e5a51, 14, 0xe25e1652);
    Took(19, Chain(0x72aff2e0, 0xe25e1652, 0x4a1d804e, 0x3e9e9126), m, 0x80636261, 0xe9b6c7aa, 20, 0xb5b204e4);
    Took(20, Chain(0x3e9e9126, 0xb5b204e4, 0xe25e1652, 0x4a1d804e), m, 0, 0xd62f105d, 5, 0x59a8ffda);
    Took(21, Chain(0x4a1d804e, 0x59a8ffda, 0xb5b204e4, 0xe25e1652), m, 0, 0x02441453, 9, 0x6d002f1e);
    Took(22, Chain(0xe25e1652, 0x6d002f1e, 0x59a8ffda, 0xb5b204e4), m, 0, 0xd8a1e681, 14, 0xabfc7920);
    Took(23, Chain(0xb5b204e4, 0xabfc7920, 0x6d002f1e, 0x59a8ffda), m, 0, 0xe7d3fbc8, 20, 0x47092c07);
    Took(24, Chain(0x59a8ffda, 0x47092c07, 0xabfc7920, 0x6d002f1e), m, 0, 0x21e1cde6, 5, 0xb7f268cf);
    Took(25, Chain(0x6d002f1e, 0xb7f268cf, 0x47092c07, 0xabfc7920), m, 0x00000018, 0xc33707d6, 9, 0x09388eff);
    Took(26, Chain(0xabfc7920, 0x09388eff, 0xb7f268cf, 0x47092c07), m, 0, 0xf4d50d87, 14, 0xfe1623b1);
    Took(27, Chain(0x47092c07, 0xfe1623b1, 0x09388eff, 0xb7f268cf), m, 0, 0x455a14ed, 20, 0x786acb8f);
    Took(28, Chain(0xb7f268cf, 0x786acb8f, 0xfe1623b1, 0x09388eff), m, 0, 0xa9e3e905, 5, 0x790a77fb);
    Took(29, Chain(0x09388eff, 0x790a77fb, 0x786acb8f, 0xfe1623b1), m, 0, 0xfcefa3f8, 9, 0x9f47e4f8);
    Took(30, Chain(0xfe1623b1, 0x9f47e4f8, 0x790a77fb, 0x786acb8f), m, 0, 0x676f02d9, 14, 0xa62884aa);
    Took(31, Chain(0x786acb8f, 0xa62884aa, 0x9f47e4f8, 0x790a77fb), m, 0, 0x8d2a4c8a, 20, 0x726342d3);
  }

  lemma Known3(m: seq<Word>)
    requires IsBlock(m) && Steps(32, INIT, m) == Chain(0x790a77fb, 0x726342d3, 0xa62884aa, 0x9f47e4f8)
    ensures Steps(48, INIT, m) == Chain(0x7f2e507b, 0x7beb9700, 0x8fae6399, 0x99d9679d)
  {
    hide Steps, K, S, T;
    Table3();
    Took(32, Chain(0x790a77fb, 0x726342d3, 0xa62884aa, 0x9f47e4f8), m, 0, 0xfffa3942, 4, 0xb3707ebf);
    Took(33, Chain(0x9f47e4f8, 0xb3707ebf, 0x726342d3, 0xa62884aa), m, 0, 0x8771f681, 11, 0x60127b2e);
    Took(34, Chain(0xa62884aa, 0x60127b2e, 0xb3707ebf, 0x726342d3), m, 0, 0x6d9d6122, 16, 0x8d212ff5);
    Took(35, Chain(0x726342d3, 0x8d212ff5, 0x60127b2e, 0xb3707ebf), m, 0x00000018, 0xfde5380c, 23, 0x3b0875c7);
    Took(36, Chain(0xb3707ebf, 0x3b0875c7, 0x8d212ff5, 0x60127b2e), m, 0, 0xa4beea44, 4, 0x21b117b9);
    Took(37, Chain(0x60127b2e, 0x21b117b9, 0x3b0875c7, 0x8d212ff5), m, 0, 0x4bdecfa9, 11, 0x6e7429d5);
    Took(38, Chain(0x8d212ff5, 0x6e7429d5, 0x21b117b9, 0x3b0875c7), m, 0, 0xf6bb4b60, 16, 0x3575227e);
    Took(39, Chain(0x3b0875c7, 0x3575227e, 0x6e7429d5, 0x21b117b9), m, 0, 0xbebfbc70, 23, 0x5a2f5ea5);
    Took(40, Chain(0x21b117b9, 0x5a2f5ea5, 0x3575227e, 0x6e7429d5), m, 0, 0x289b7ec6, 4, 0x11de1779);
    Took(41, Chain(0x6e7429d5, 0x11de1779, 0x5a2f5ea5, 0x3575227e), m, 0x80636261, 0xeaa127fa, 11, 0xfadcaa38);
    Took(42, Chain(0x3575227e, 0xfadcaa38, 0x11de1779, 0x5a2f5ea5), m, 0, 0xd4ef3085, 16, 0x31c465ca);
    Took(43, Chain(0x5a2f5ea5, 0x31c465ca, 0xfadcaa38, 0x11de1779), m, 0, 0x04881d05, 23, 0x4c6124f4);
    Took(44, Chain(0x11de1779, 0x4c6124f4, 0x31c465ca, 0xfadcaa38), m, 0, 0xd9d4d039, 4, 0x7f2e507b);
    Took(45, Chain(0xfadcaa38, 0x7f2e507b, 0x4c6124f4, 0x31c465ca), m, 0, 0xe6db99e5, 11, 0x99d9679d);
    Took(46, Chain(0x31c465ca, 0x99d9679d, 0x7f2e507b, 0x4c6124f4), m, 0, 0x1fa27cf8, 16, 0x8fae6399);
    Took(47, Chain(0x4c6124f4, 0x8fae6399, 0x99d9679d, 0x7f2e507b), m, 0, 0xc4ac5665, 23, 0x7beb9700);
  }

  lemma Known4(m: seq<Word>)
    requires IsBlock(m) && Steps(48, INIT, m) == Chain(0x7f2e507b, 0x7beb9700, 0x8fae6399, 0x99d9679d)
    ensures Steps(64, INIT, m) == Chain(0x310ade8f, 0xc08226b3, 0xe484b9d8, 0x624d8cb2)
  {
    hide Steps, K, S, T;
    Table4();
    Took(48, Chain(0x7f2e507b, 0x7beb9700, 0x8fae6399, 0x99d9679d), m, 0x80636261, 0xf4292244, 6, 0x7b201df8);
    Took(49, Chain(0x99d9679d, 0x7b201df8, 0x7beb9700, 0x8fae6399), m, 0, 0x432aff97, 10, 0xf4e8e96e);
    Took(50, Chain(0x8fae6399, 0xf4e8e96e, 0x7b201df8, 0x7beb9700), m, 0x00000018, 0xab9423a7, 15, 0xb298cefd);
    Took(51, Chain(0x7beb9700, 0xb298cefd, 0xf4e8e96e, 0x7b201df8), m, 0, 0xfc93a039, 21, 0x8bf025c4);
    Took(52, Chain(0x7b201df8, 0x8bf025c4, 0xb298cefd, 0xf4e8e96e), m, 0, 0x655b59c3, 6, 0x06cc5e8a);
    Took(53, Chain(0xf4e8e96e, 0x06cc5e8a, 0x8bf025c4, 0xb298cefd), m, 0, 0x8f0ccc92, 10, 0x5b0d97aa);
    Took(54, Chain(0xb298cefd, 0x5b0d97aa, 0x06cc5e8a, 0x8bf025c4), m, 0, 0xffeff47d, 15, 0x7d632dd0);
    Took(55, Chain(0x8bf025c4, 0x7d632dd0, 0x5b0d97aa, 0x06cc5e8a), m, 0, 0x85845dd1, 21, 0x3bfa2c27);
    Took(56, Chain(0x06cc5e8a, 0x3bfa2c27, 0x7d632dd0, 0x5b0d97aa), m, 0, 0x6fa87e4f, 6, 0x7f81cc35);
    Took(57, Chain(0x5b0d97aa, 0x7f81cc35, 0x3bfa2c27, 0x7d632dd0), m, 0, 0xfe2ce6e0, 10, 0x094454ab);
    Took(58, Chain(0x7d632dd0, 0x094454ab, 0x7f81cc35, 0x3bfa2c27), m, 0, 0xa3014314, 15, 0x4f9dbe3f);
    Took(59, Chain(0x3bfa2c27, 0x4f9dbe3f, 0x094454ab, 0x7f81cc35), m, 0, 0x4e0811a1, 21, 0x7327d604);
    Took(60, Chain(0x7f81cc35, 0x7327d604, 0x4f9dbe3f, 0x094454ab), m, 0, 0xf7537e82, 6, 0x310ade8f);
    Took(61, Chain(0x094454ab, 0x310ade8f, 0x7327d604, 0x4f9dbe3f), m, 0, 0xbd3af235, 10, 0x624d8cb2);
    Took(62, Chain(0x4f9dbe3f, 0x624d8cb2, 0x310ade8f, 0x7327d604), m, 0, 0x2ad7d2bb, 15, 0xe484b9d8);
    Took(63, Chain(0x7327d604, 0xe484b9d8, 0x624d8cb2, 0x310ade8f), m, 0, 0xeb86d391, 21, 0xc08226b3);
  }

  lemma NoSteps(m: seq<Word>)
    requires |m| == 16
    ensures Steps(0, INIT, m) == Chain(0x67452301, 0xefcdab89, 0x98badcfe, 0x10325476)
  {}

  /** The digest of "abc". */
  lemma AbcDigest()
    ensures Digest([0x61, 0x62, 0x63])
         == [0x90, 0x01, 0x50, 0x98, 0x3c, 0xd2, 0x4f, 0xb0,
             0xd6, 0x96, 0x3f, 0x7d, 0x28, 0xe1, 0x7f, 0x72]
  {
    hide Steps, Compress, Output;
    var msg: seq<Byte> := [0x61, 0x62, 0x63];
    var block := msg + Padding(3);
    AbcWords(block);
    var m := Words(block);
    Known1(m);
    Known2(m);
    Known3(m);
    Known4(m);
    Compressed(m);
    assert block[..64] == block && block[64..] == [];
    OneBlock(block);
    OutputKnown();
  }

  lemma Compressed(m: seq<Word>)
    requires |m| == 16 && Steps(64, INIT, m) == Chain(0x310ade8f, 0xc08226b3, 0xe484b9d8, 0x624d8cb2)
    ensures Compress(INIT, m) == Chain(0x98500190, 0xb04fd23c, 0x7d3f96d6, 0x727fe128)
  {
    hide Steps;
    assert Add(Chain(0x310ade8f, 0xc08226b3, 0xe484b9d8, 0x624d8cb2),
               Chain(0x67452301, 0xefcdab89, 0x98badcfe, 0x10325476))
        == Chain(0x98500190, 0xb04fd23c, 0x7d3f96d6, 0x727fe128);
  }

  lemma OneBlock(block: seq<Byte>)
    requires |block| == 64
    ensures Fold(INIT, block) == Compress(INIT, Words(block))
  {
    hide Compress;
    assert block[..64] == block && |block[64..]| == 0;
  }

  lemma OutputKnown()
    ensures Output(Chain(0x98500190, 0xb04fd23c, 0x7d3f96d6, 0x727fe128))
         == [0x90, 0x01, 0x50, 0x98, 0x3c, 0xd2, 0x4f, 0xb0,
             0xd6, 0x96, 0x3f, 0x7d, 0x28, 0xe1, 0x7f, 0x72]
  {}

  lemma AbcWords(block: seq<Byte>)
    requires block == [0x61, 0x62, 0x63] + Padding(3)
    ensures |block| == 64 && IsBlock(Words(block))
  {
    LengthBytes();
    hide LittleEndian;
    assert block == [0x61, 0x62, 0x63, 0x80] + Zeros(52) + [24] + Zeros(7);
    var m := Words(block);
    assert m[0] == Join(0x61, 0x62, 0x63, 0x80) == 0x80636261;
    assert m[14] == Join(24, 0, 0, 0) == 24;
    forall k | 0 < k < 16 && k != 14
      ensures m[k] == 0
    {
      assert m[k] == Join(0, 0, 0, 0);
    }
  }

  lemma {:induction false} NoBytes(n: nat)
    ensures LittleEndian(0, n) == Zeros(n)
  {
    if n > 0 {
      NoBytes(n - 1);
    }
  }

  lemma LengthBytes()
    ensures LittleEndian(3 * 8, 8) == [24] + Zeros(7)
  {
    NoBytes(7);
    assert LittleEndian(24, 8) == [(24 % 256) as Byte] + LittleEndian(24 / 256, 7);
  }
}
