/**
 The text crypt returns (glibc-2.27/crypt/crypt_util.c, _ufc_output_conversion_r): the salt and
 the result, six bits to a character.
 */
module CryptText {
  import opened Bits
  import opened Feistel
  import opened DesSpec
  import opened DesKernel
  import opened UfcSalt
  import opened SaltedDes
  import opened CipherLaws
  import opened CryptKeys

  // ----- characters

  function BinToAscii(c: nat): (r: char)
    requires c < 64
    ensures GoodForSalt(r) && AsciiToBin(r) == c
  {
    if c >= 38 then (c - 38 + 'a' as int) as char
    else if c >= 12 then (c - 12 + 'A' as int) as char
    else (c + '.' as int) as char
  }

  /** The characters that a salt may have are just those that stand for six bits. */
  lemma SaltAlphabet(c: char)
    ensures GoodForSalt(c) <==> 0 <= AsciiToBin(c) < 64 && BinToAscii(AsciiToBin(c)) == c
  {}

  /** The i-th six bits of a block, the last of them filled up with two zeros. */
  function Sextet(block: Bits, i: nat): (x: Bits)
    requires |block| == 64 && i < 11
    ensures |x| == 6
  {
    (block + Zeros(2))[6 * i..6 * i + 6]
  }

  function Digit(x: Bits): (r: char)
    requires |x| == 6
  {
    assert Pow2(6) == 64;
    BinToAscii(Value(x))
  }

  lemma DigitDecodes(x: Bits)
    requires |x| == 6
    ensures GoodForSalt(Digit(x)) && ToBits(6, AsciiToBin(Digit(x))) == x
  {
    hide BinToAscii, ToBits, Value, AsciiToBin, GoodForSalt;
    ToBitsValue(x);
  }

  // ----- _ufc_output_conversion_r

  method OutputConversion(v1: Word, v2: Word, s0: char, s1: char) returns (buf: string)
    ensures |buf| == 13 && buf[0] == s0 && buf[1] == (if s1 != '\0' then s1 else s0)
    ensures forall i :: 0 <= i < 11 ==> buf[2 + i] == Digit(Sextet(Join(v1, v2), i))
  {
    hide Digit, Sextet, Low, Shr, Shl, And, Or, Value;
    ghost var block := Join(v1, v2);
    buf := [s0, if s1 != '\0' then s1 else s0];
    for i := 0 to 5
      invariant |buf| == 2 + i && buf[..2] == [s0, if s1 != '\0' then s1 else s0]
      invariant forall n :: 0 <= n < i ==> buf[2 + n] == Digit(Sextet(block, n))
    {
      FirstSextets(v1, v2, i);
      buf := buf + [Digit(Low(Shr(v1, 26 - 6 * i), 6))];
    }
    var s := Shl(And(v2, Zeros(28) + [true, true, true, true]), 2);
    var u2 := Or(Shr(v2, 2), Shl(And(v1, Zeros(30) + [true, true]), 30));
    Carried(v1, v2);
    LastSextet(v1, v2);
    for i := 5 to 10
      invariant |buf| == 2 + i && buf[..2] == [s0, if s1 != '\0' then s1 else s0]
      invariant forall n :: 0 <= n < i ==> buf[2 + n] == Digit(Sextet(block, n))
    {
      MiddleSextets(v1, v2, u2, i);
      buf := buf + [Digit(Low(Shr(u2, 56 - 6 * i), 6))];
    }
    buf := buf + [BinToAscii(Value(s))];
  }

  lemma FirstSextets(v1: Word, v2: Word, i: nat)
    requires i < 5
    ensures Low(Shr(v1, 26 - 6 * i), 6) == Sextet(Join(v1, v2), i)
  {
    LowShr(v1, 26 - 6 * i, 6);
    hide Low, Shr;
    assert (Join(v1, v2) + Zeros(2))[6 * i..6 * i + 6] == v1[6 * i..6 * i + 6];
  }

  /** The second word shifted by two with the last two bits of the first carried in. */
  lemma Carried(v1: Word, v2: Word)
    ensures Or(Shr(v2, 2), Shl(And(v1, Zeros(30) + [true, true]), 30)) == v1[30..] + v2[..30]
  {
    var mask: Bits := Zeros(30) + [true, true];
    var a, b := Shr(v2, 2), Shl(And(v1, mask), 30);
    assert b == And(v1, mask)[30..] + Zeros(30);
    assert mask[30] && mask[31];
    assert And(v1, mask)[30..] == v1[30..];
    assert a == Zeros(2) + v2[..30];
    var u := v1[30..] + v2[..30];
    forall q | 0 <= q < 32
      ensures Or(a, b)[q] == u[q]
    {}
  }

  lemma MiddleSextets(v1: Word, v2: Word, u2: Word, i: nat)
    requires 5 <= i < 10 && u2 == v1[30..] + v2[..30]
    ensures Low(Shr(u2, 56 - 6 * i), 6) == Sextet(Join(v1, v2), i)
  {
    hide Low, Shr;
    LowShr(u2, 56 - 6 * i, 6);
    var w, j := Join(v1, v2) + Zeros(2), 6 * i - 30;
    assert w[30..62] == u2;
    SliceOfSlice(w, 30, 62, j, j + 6);
  }

  lemma SliceOfSlice(w: Bits, a: nat, b: nat, c: nat, d: nat)
    requires a <= b <= |w| && c <= d <= b - a
    ensures w[a..b][c..d] == w[a + c..a + d]
  {
    var u, v := w[a..b][c..d], w[a + c..a + d];
    assert forall k :: 0 <= k < d - c ==> u[k] == w[a + (c + k)] && v[k] == w[(a + c) + k];
  }

  lemma LastSextet(v1: Word, v2: Word)
    ensures var s := Shl(And(v2, Zeros(28) + [true, true, true, true]), 2);
            Value(s) < 64 && BinToAscii(Value(s)) == Digit(Sextet(Join(v1, v2), 10))
  {
    hide BinToAscii;
    assert Pow2(6) == 64;
    var x := Sextet(Join(v1, v2), 10);
    var mask: Bits := Zeros(28) + [true, true, true, true];
    var s := Shl(And(v2, mask), 2);
    assert And(v2, mask)[2..] == Zeros(26) + v2[28..];
    assert s == Zeros(26) + (v2[28..] + Zeros(2));
    assert x == v2[28..] + Zeros(2);
    hide Value, Pow2;
    ValueZeros(26, x);
  }

  // ----- the text of a password

  /** Twenty-five encipherings of the zero block with the password as key and the expansion salted. */
  ghost function Result(pw: seq<Byte>, s0: char, s1: char): (v: Long)
    requires GoodForSalt(s0) && GoodForSalt(s1)
  {
    SaltedFKeeps(SaltBits(s0, s1));
    CipherTimes(SaltedF(SaltBits(s0, s1)), KeySchedule(PasswordKey(pw)), 25, Zeros(64))
  }

  /** What crypt returns: the salt, then the result. */
  ghost function Text(pw: seq<Byte>, s0: char, s1: char): (t: string)
    requires GoodForSalt(s0) && GoodForSalt(s1)
    ensures |t| == 13 && t[0] == s0 && t[1] == s1
    ensures forall i :: 0 <= i < 11 ==> t[2 + i] == Digit(Sextet(Result(pw, s0, s1), i))
  {
    [s0, s1] + seq(11, i requires 0 <= i < 11 => Digit(Sextet(Result(pw, s0, s1), i)))
  }

  lemma IsText(buf: string, pw: seq<Byte>, s0: char, s1: char)
    requires GoodForSalt(s0) && GoodForSalt(s1)
    requires |buf| == 13 && buf[0] == s0 && buf[1] == (if s1 != '\0' then s1 else s0)
    requires forall i :: 0 <= i < 11 ==> buf[2 + i] == Digit(Sextet(Result(pw, s0, s1), i))
    ensures buf == Text(pw, s0, s1)
  {
    hide Digit, Sextet, Result, Text;
    var t := Text(pw, s0, s1);
    forall i | 0 <= i < 13
      ensures t[i] == buf[i]
    {
      if i >= 2 {
        var k := i - 2;
        assert t[2 + k] == Digit(Sextet(Result(pw, s0, s1), k));
      }
    }
  }

  lemma SextetsTell(a: Long, b: Long)
    requires forall i :: 0 <= i < 11 ==> Digit(Sextet(a, i)) == Digit(Sextet(b, i))
    ensures a == b
  {
    hide Digit;
    forall n | 0 <= n < 64
      ensures a[n] == b[n]
    {
      var i, p := n / 6, n % 6;
      DigitDecodes(Sextet(a, i));
      DigitDecodes(Sextet(b, i));
      assert Sextet(a, i)[p] == a[n] && Sextet(b, i)[p] == b[n];
    }
  }

  /** Two texts are the same exactly if the salts and the results are. */
  lemma TextExact(pw: seq<Byte>, s0: char, s1: char, qw: seq<Byte>, t0: char, t1: char)
    requires GoodForSalt(s0) && GoodForSalt(s1) && GoodForSalt(t0) && GoodForSalt(t1)
    ensures Text(pw, s0, s1) == Text(qw, t0, t1) <==> s0 == t0 && s1 == t1 && Result(pw, s0, s1) == Result(qw, t0, t1)
  {
    hide Digit, Sextet, Result, Text;
    var t, u, a, b := Text(pw, s0, s1), Text(qw, t0, t1), Result(pw, s0, s1), Result(qw, t0, t1);
    if s0 == t0 && s1 == t1 && a == b {
      forall i | 0 <= i < 13
        ensures t[i] == u[i]
      {
        if i >= 2 {
          var k := i - 2;
          assert t[2 + k] == Digit(Sextet(a, k)) == u[2 + k];
        }
      }
    }
    if t == u {
      forall i | 0 <= i < 11
        ensures Digit(Sextet(a, i)) == Digit(Sextet(b, i))
      {
        assert t[2 + i] == u[2 + i];
      }
      SextetsTell(a, b);
    }
  }

  /** Bytes after the eighth and the most significant bits of the others make no difference. */
  lemma SameText(pw: seq<Byte>, qw: seq<Byte>, s0: char, s1: char)
    requires GoodForSalt(s0) && GoodForSalt(s1)
    requires forall i: nat :: i < 8 ==> Reaches(pw, i) == Reaches(qw, i)
    requires forall i: nat :: i < 8 && Reaches(pw, i) && Reaches(qw, i) ==> pw[i][1..] == qw[i][1..]
    ensures Text(pw, s0, s1) == Text(qw, s0, s1)
  {
    hide PasswordKey, CipherTimes, KeySchedule, Text;
    SameKey(pw, qw);
    TextExact(pw, s0, s1, qw, s0, s1);
  }

  /**
   A stored text serves as the salt that checks a password against it: it matches just the
   passwords with its result.
   */
  lemma Checks(pw: seq<Byte>, s0: char, s1: char, qw: seq<Byte>)
    requires GoodForSalt(s0) && GoodForSalt(s1)
    ensures var stored := Text(pw, s0, s1);
            Text(qw, stored[0], stored[1]) == stored <==> Result(qw, s0, s1) == Result(pw, s0, s1)
  {
    hide Result, Text;
    TextExact(qw, s0, s1, pw, s0, s1);
  }

  // ----- the encipherings in a text

  /** Twenty-five decipherings of the result lead back to the block of zeros. */
  lemma ResultUndone(pw: seq<Byte>, s0: char, s1: char)
    requires GoodForSalt(s0) && GoodForSalt(s1)
    ensures Keeps(SaltedF(SaltBits(s0, s1)), 32)
    ensures CipherTimes(SaltedF(SaltBits(s0, s1)), Reverse(KeySchedule(PasswordKey(pw))), 25, Result(pw, s0, s1))
         == Zeros(64)
  {
    hide SaltedF, SaltBits, KeySchedule, PasswordKey, CipherTimes, GoodForSalt;
    SaltedFKeeps(SaltBits(s0, s1));
    TimesUndo(SaltedF(SaltBits(s0, s1)), KeySchedule(PasswordKey(pw)), 25, Zeros(64));
  }

  lemma NoPasswordKey()
    ensures PasswordKey([]) == Zeros(64)
  {}

  lemma ZeroKeyIsWeak()
    ensures var cd := PermutedChoice1(Zeros(64)); Constant(cd[..28]) && Constant(cd[28..])
  {
    hide Pc1;
    assert PermutedChoice1(Zeros(64)) == Zeros(56);
  }

  /** Without a password the twenty-five come to one, under any salt: the key of zeros undoes itself. */
  lemma NoPassword(s0: char, s1: char)
    requires GoodForSalt(s0) && GoodForSalt(s1)
    ensures Keeps(SaltedF(SaltBits(s0, s1)), 32)
    ensures Result([], s0, s1) == CipherWith(SaltedF(SaltBits(s0, s1)), KeySchedule(Zeros(64)), Zeros(64))
  {
    hide SaltedF, SaltBits, KeySchedule, PasswordKey, CipherTimes, GoodForSalt, Constant, CipherWith;
    NoPasswordKey();
    ZeroKeyIsWeak();
    WeakTimes(SaltBits(s0, s1), Zeros(64), 12, Zeros(64));
  }
}
