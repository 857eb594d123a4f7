/**
 How setkey and crypt make the eight key bytes (glibc-2.27/crypt/crypt_util.c, __setkey_r, and
 crypt-entry.c, __crypt_r).
 */
module CryptKeys {
  import opened Bits
  import opened DesKernel
  import opened UfcTables

  type Byte = b: Bits | |b| == 8 witness Zeros(8)

  // ----- setkey: one byte per key bit

  /** Entry m of j, which has been shifted up by j - 1 - m places, sets bit p (counted from the most significant). */
  ghost predicate Sets(key: seq<Byte>, at: nat, j: nat, p: nat, m: nat) {
    m < j && at + j <= |key| && p + (j - 1 - m) < 8 && key[at + m][p + (j - 1 - m)]
  }

  /** Bit p of a key byte after j of its entries. */
  ghost predicate Packed(key: seq<Byte>, at: nat, j: nat, p: nat) {
    exists m: nat :: Sets(key, at, j, p, m)
  }

  /** The 64 key bits that 64 entries stand for, whatever bits the entries have. */
  ghost function KeyBits(key: seq<Byte>): (b: Bits)
    requires |key| == 64
    ensures |b| == 64 && forall n :: 0 <= n < 64 ==> b[n] == Packed(key, n / 8 * 8, 8, n % 8)
  {
    seq(64, n requires 0 <= n < 64 => Packed(key, n / 8 * 8, 8, n % 8))
  }

  /** Entries 0 and 1 are the key bits themselves. */
  lemma KeyBitsOfBits(key: seq<Byte>, n: nat)
    requires |key| == 64 && n < 64
    requires forall i, q :: 0 <= i < 64 && 0 <= q < 7 ==> !key[i][q]
    ensures KeyBits(key)[n] == key[n][7]
  {
    var at, p := n / 8 * 8, n % 8;
    if key[n][7] {
      assert Sets(key, at, 8, p, p);
    }
  }

  /** The loop of __setkey_r that packs eight entries into a byte and drops its last bit. */
  method KeyBytes(key: seq<Byte>) returns (ktab: seq<nat>)
    requires |key| == 64
    ensures |ktab| == 8 && forall i :: 0 <= i < 8 ==> ToBits(7, ktab[i] % 128) == KeySeptets(KeyBits(key))[i]
  {
    hide KeySeptets, ToBits, Value, Shr, Shl, Packed;
    ktab := [];
    for i := 0 to 8
      invariant |ktab| == i && forall n :: 0 <= n < i ==> ToBits(7, ktab[n] % 128) == KeySeptets(KeyBits(key))[n]
    {
      var c: Byte := Zeros(8);
      NonePacked(key, 8 * i);
      for j := 0 to 8
        invariant forall p :: 0 <= p < 8 ==> c[p] == Packed(key, 8 * i, j, p)
      {
        NextPacked(key, 8 * i, j, c);
        c := Or(Shl(c, 1), key[8 * i + j]);
      }
      ByteSeptet(key, i, c);
      ktab := ktab + [Value(Shr(c, 1))];
    }
  }

  lemma NonePacked(key: seq<Byte>, at: nat)
    requires at <= |key|
    ensures forall p :: 0 <= p < 8 ==> !Packed(key, at, 0, p)
  {}

  lemma NextPacked(key: seq<Byte>, at: nat, j: nat, c: Byte)
    requires at + j < |key| && j < 8 && forall p :: 0 <= p < 8 ==> c[p] == Packed(key, at, j, p)
    ensures var d := Or(Shl(c, 1), key[at + j]); forall p :: 0 <= p < 8 ==> d[p] == Packed(key, at, j + 1, p)
  {
    var d := Or(Shl(c, 1), key[at + j]);
    forall p | 0 <= p < 8
      ensures d[p] == Packed(key, at, j + 1, p)
    {
      assert d[p] == ((p < 7 && c[p + 1]) || key[at + j][p]);
      hide Or, Shl;
      PackedStep(key, at, j, p);
    }
  }

  lemma PackedStep(key: seq<Byte>, at: nat, j: nat, p: nat)
    requires at + j < |key| && p < 8
    ensures Packed(key, at, j + 1, p) == ((p < 7 && Packed(key, at, j, p + 1)) || key[at + j][p])
  {
    if key[at + j][p] {
      assert Sets(key, at, j + 1, p, j);
    }
    if p < 7 && Packed(key, at, j, p + 1) {
      var m: nat :| Sets(key, at, j, p + 1, m);
      assert Sets(key, at, j + 1, p, m);
    }
    if Packed(key, at, j + 1, p) && !key[at + j][p] {
      var m: nat :| Sets(key, at, j + 1, p, m);
      assert Sets(key, at, j, p + 1, m);
    }
  }

  lemma ByteSeptet(key: seq<Byte>, i: nat, c: Byte)
    requires |key| == 64 && i < 8 && forall p :: 0 <= p < 8 ==> c[p] == Packed(key, 8 * i, 8, p)
    ensures ToBits(7, Value(Shr(c, 1)) % 128) == KeySeptets(KeyBits(key))[i]
  {
    hide ToBits, Value, Packed;
    UpperSeven(c);
    var bits := KeyBits(key);
    forall p | 0 <= p < 7
      ensures bits[8 * i..8 * i + 7][p] == c[p]
    {
      assert (8 * i + p) / 8 * 8 == 8 * i && (8 * i + p) % 8 == p;
    }
    assert bits[8 * i..8 * i + 7] == c[..7];
  }

  lemma SevenBits()
    ensures Pow2(7) == 128
  {}

  lemma UpperSeven(c: Byte)
    ensures ToBits(7, Value(Shr(c, 1)) % 128) == c[..7]
  {
    hide ToBits, Value, Pow2;
    SevenBits();
    assert Shr(c, 1) == Zeros(1) + c[..7];
    ValueZeros(1, c[..7]);
    ToBitsValue(c[..7]);
  }

  // ----- crypt: a password

  /** The copy of the password into eight cleared bytes reaches byte i. */
  ghost predicate Reaches(pw: seq<Byte>, i: nat) {
    i < |pw| && forall j :: 0 <= j <= i ==> pw[j] != Zeros(8)
  }

  /**
   The key bits of a password: the low seven bits of the first eight bytes, each followed by a
   parity bit nobody reads.
   */
  ghost function PasswordKey(pw: seq<Byte>): (b: Bits)
    ensures |b| == 64
    ensures forall n :: 0 <= n < 64 ==> b[n] == (Reaches(pw, n / 8) && n % 8 < 7 && pw[n / 8][1 + n % 8])
  {
    seq(64, n requires 0 <= n < 64 => Reaches(pw, n / 8) && n % 8 < 7 && pw[n / 8][1 + n % 8])
  }

  /** strncpy into the cleared ktab. */
  method PasswordBytes(pw: seq<Byte>) returns (ktab: seq<nat>)
    ensures |ktab| == 8 && forall i :: 0 <= i < 8 ==> ToBits(7, ktab[i] % 128) == KeySeptets(PasswordKey(pw))[i]
  {
    hide KeySeptets, ToBits, Value;
    ktab := [];
    var ended := false;
    for i := 0 to 8
      invariant |ktab| == i && ended == (i > 0 && !Reaches(pw, i - 1))
      invariant forall n :: 0 <= n < i ==> ToBits(7, ktab[n] % 128) == KeySeptets(PasswordKey(pw))[n]
    {
      if !ended && i < |pw| && pw[i] != Zeros(8) {
        ktab := ktab + [Value(pw[i])];
        PasswordSeptet(pw, i, pw[i]);
      } else {
        ended := true;
        ktab := ktab + [0];
        PasswordEnd(pw, i);
      }
    }
  }

  lemma LowerSeven(c: Byte)
    ensures ToBits(7, Value(c) % 128) == c[1..]
  {
    hide ToBits, Value, Pow2;
    SevenBits();
    ToBitsValue(c[1..]);
    TopBit(c);
  }

  lemma TopBit(c: Byte)
    ensures Value(c) % Pow2(7) == Value(c[1..])
  {
    hide Value;
    TopBitAt(c, 7);
  }

  lemma {:induction false} TopBitAt(c: Bits, n: nat)
    requires |c| == n + 1
    ensures Value(c) == (if c[0] then Pow2(n) else 0) + Value(c[1..])
  {
    if n == 0 {
      assert c[..0] == [] && c[1..] == [];
    } else {
      TopBitAt(c[..n], n - 1);
      assert c[..n][1..] == c[1..][..n - 1];
    }
  }

  lemma PasswordSeptet(pw: seq<Byte>, i: nat, c: Byte)
    requires i < 8 && Reaches(pw, i) && c == pw[i]
    ensures ToBits(7, Value(c) % 128) == KeySeptets(PasswordKey(pw))[i]
  {
    hide ToBits, Value, Reaches;
    LowerSeven(c);
    var bits := PasswordKey(pw);
    forall p | 0 <= p < 7
      ensures bits[8 * i..8 * i + 7][p] == c[1..][p]
    {
      assert (8 * i + p) / 8 == i && (8 * i + p) % 8 == p;
    }
    assert bits[8 * i..8 * i + 7] == c[1..];
  }

  lemma PasswordEnd(pw: seq<Byte>, i: nat)
    requires i < 8 && !Reaches(pw, i)
    ensures ToBits(7, 0 % 128) == KeySeptets(PasswordKey(pw))[i]
  {
    hide ToBits, Reaches;
    ToBitsZero(7);
    var xs := PasswordKey(pw)[8 * i..8 * i + 7];
    forall p | 0 <= p < 7
      ensures !xs[p]
    {
      assert (8 * i + p) / 8 == i;
    }
    assert xs == Zeros(7);
  }

  lemma SameKey(pw: seq<Byte>, qw: seq<Byte>)
    requires forall i: nat :: i < 8 ==> Reaches(pw, i) == Reaches(qw, i)
    requires forall i: nat :: i < 8 && Reaches(pw, i) && Reaches(qw, i) ==> pw[i][1..] == qw[i][1..]
    ensures PasswordKey(pw) == PasswordKey(qw)
  {
    var a, b := PasswordKey(pw), PasswordKey(qw);
    forall n | 0 <= n < 64
      ensures a[n] == b[n]
    {
      var i, p := n / 8, n % 8;
      if Reaches(pw, i) && p < 7 {
        assert Reaches(qw, i);
        assert pw[i][1..][p] == pw[i][1 + p] && qw[i][1..][p] == qw[i][1 + p];
      }
    }
  }
}
