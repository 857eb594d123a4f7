/**
 The salted sb tables of UFC-crypt (glibc-2.27/crypt/crypt_util.c): how they are built and how a
 salt exchanges bits between the two words of every entry.
 */
module UfcSalt {
  import opened Bits
  import opened DesSpec
  import opened UfcData
  import opened DesKernel
  import opened DesRefinement
  import opened Wires
  import opened UfcTables

  // ----- shuffle_sb

  /** One step of shuffle_sb, 64-bit version. */
  function Shuffle(k: Long, saltbits: Word): Long {
    var mask: Bits := Zeros(32) + saltbits;
    var x := And(Xor(Shr(k, 32), k), mask);
    Xor(k, Or(Shl(x, 32), x))
  }

  /** It exchanges the bits selected by the salt between the two words. */
  lemma ShuffleExchanges(k: Long, s: Word, q: nat)
    requires q < 32
    ensures Shuffle(k, s)[q] == if s[q] then k[32 + q] else k[q]
    ensures Shuffle(k, s)[32 + q] == if s[q] then k[q] else k[32 + q]
  {
    var mask: Bits := Zeros(32) + s;
    var x := And(Xor(Shr(k, 32), k), mask);
    assert Shr(k, 32)[32 + q] == k[q] && mask[32 + q] == s[q] && !mask[q];
    assert x[32 + q] == ((k[q] != k[32 + q]) && s[q]) && !x[q];
    assert Shl(x, 32)[q] == x[32 + q] && !Shl(x, 32)[32 + q];
  }

  /** Shuffles compose by exclusive or of their masks. */
  lemma ShuffleCompose(k: Long, a: Word, b: Word)
    ensures Shuffle(Shuffle(k, a), b) == Shuffle(k, Xor(a, b))
  {
    hide Shuffle;
    var u, v := Shuffle(Shuffle(k, a), b), Shuffle(k, Xor(a, b));
    forall q | 0 <= q < 64
      ensures u[q] == v[q]
    {
      var p := if q < 32 then q else q - 32;
      ShuffleExchanges(k, a, p);
      ShuffleExchanges(Shuffle(k, a), b, p);
      ShuffleExchanges(k, Xor(a, b), p);
    }
  }

  lemma ShuffleZero(k: Long)
    ensures Shuffle(k, Zeros(32)) == k
  {
    hide Shuffle;
    var u := Shuffle(k, Zeros(32));
    forall q | 0 <= q < 64
      ensures u[q] == k[q]
    {
      ShuffleExchanges(k, Zeros(32), if q < 32 then q else q - 32);
    }
  }

  // ----- salts

  predicate GoodForSalt(c: char) {
    '0' <= c <= '9' || 'A' <= c <= 'Z' || 'a' <= c <= 'z' || c == '.' || c == '/'
  }

  /** The place of c in "./", the digits, the capital and the small letters, in this order. */
  function AsciiToBin(c: char): (v: int)
    ensures (c == '.' ==> v == 0) && (c == '/' ==> v == 1) && ('0' <= c <= '9' ==> v == 2 + (c as int - '0' as int))
    ensures 'A' <= c <= 'Z' ==> v == 12 + (c as int - 'A' as int)
    ensures 'a' <= c <= 'z' ==> v == 38 + (c as int - 'a' as int)
  {
    if c >= 'a' then c as int - 59 else if c >= 'A' then c as int - 53 else c as int - '.' as int
  }

  /** Bit j of the i-th salt character, as BITMASK[6 * i + j]. */
  function SaltBits(s0: char, s1: char): (w: Word)
    requires GoodForSalt(s0) && GoodForSalt(s1)
    ensures forall j :: 0 <= j < 6 ==> w[1 + j] == SaltBit(s0, j)
    ensures forall j :: 0 <= j < 6 ==> w[7 + j] == SaltBit(s1, j)
    ensures forall q :: 0 <= q < 32 && !(1 <= q <= 12) ==> !w[q]
  {
    seq(32, q requires 0 <= q < 32 =>
      if 1 <= q <= 6 then SaltBit(s0, q - 1) else if 7 <= q <= 12 then SaltBit(s1, q - 7) else false)
  }

  predicate SaltBit(c: char, j: nat)
    requires GoodForSalt(c) && j < 6
  {
    AsciiToBin(c) / Pow2(j) % 2 == 1
  }

  function BitValue(c: char, j: nat): (v: nat)
    requires GoodForSalt(c) && j < 6
    ensures v <= 1
  {
    if SaltBit(c, j) then 1 else 0
  }

  /** The six bits of a salt character are the binary digits of its value, the least significant first. */
  lemma SaltDigits(c: char)
    requires GoodForSalt(c)
    ensures AsciiToBin(c) == BitValue(c, 0) + 2 * BitValue(c, 1) + 4 * BitValue(c, 2) + 8 * BitValue(c, 3)
                             + 16 * BitValue(c, 4) + 32 * BitValue(c, 5)
  {
    SaltRange(c);
    hide AsciiToBin, GoodForSalt, Pow2, BitValue;
    Powers();
    BitIs(c, 0);
    BitIs(c, 1);
    BitIs(c, 2);
    BitIs(c, 3);
    BitIs(c, 4);
    BitIs(c, 5);
    SixDigits(AsciiToBin(c));
  }

  lemma BitIs(c: char, j: nat)
    requires GoodForSalt(c) && j < 6
    ensures BitValue(c, j) == AsciiToBin(c) / Pow2(j) % 2
  {}

  lemma SaltRange(c: char)
    requires GoodForSalt(c)
    ensures 0 <= AsciiToBin(c) < 64
  {}

  lemma Powers()
    ensures Pow2(0) == 1 && Pow2(1) == 2 && Pow2(2) == 4 && Pow2(3) == 8 && Pow2(4) == 16 && Pow2(5) == 32
  {}

  lemma SixDigits(v: nat)
    requires v < 64
    ensures v == v / 1 % 2 + 2 * (v / 2 % 2) + 4 * (v / 4 % 2) + 8 * (v / 8 % 2) + 16 * (v / 16 % 2) + 32 * (v / 32 % 2)
  {
    assert v / 4 == v / 2 / 2 && v / 8 == v / 4 / 2 && v / 16 == v / 8 / 2 && v / 32 == v / 16 / 2;
  }

  lemma DotsAreZero()
    ensures SaltBits('.', '.') == Zeros(32)
  {
    hide Pow2, AsciiToBin;
    assert AsciiToBin('.') == 0 by { DotIsZero(); }
    var w := SaltBits('.', '.');
    forall q | 0 <= q < 32
      ensures !w[q]
    {
      if 1 <= q <= 12 {
        ZeroBit(Pow2((q - 1) % 6));
      }
    }
  }

  lemma DotIsZero()
    ensures AsciiToBin('.') == 0
  {}

  lemma ZeroBit(p: nat)
    requires p > 0
    ensures 0 / p % 2 == 0
  {
    assert 0 / p == 0;
  }

  // ----- building an entry

  /** The s_lookup macro. */
  function SLookup(k: nat, s: nat): (r: nat)
    requires k < 8 && s < 64
    ensures r < 16
  {
    hide SboxRow, SboxEntry, Column;
    SboxEntry(k, s / 32 * 2 + s % 2, s / 2 % 16)
  }

  lemma FourBits()
    ensures Pow2(4) == 16
  {}

  lemma LastBit(n: nat, v: nat)
    ensures ToBits(0, v) == [] && (n > 0 ==> ToBits(n, v) == ToBits(n - 1, v / 2) + [v % 2 == 1])
  {}

  lemma SixBits(s: nat)
    requires s < 64
    ensures var x := ToBits(6, s); x[0] == (s / 32 == 1) && x[5] == (s % 2 == 1) && Value(x[1..5]) == s / 2 % 16
  {
    hide ToBits, Value, Pow2;
    var x, u := ToBits(6, s), s / 2;
    LastBit(6, s);
    LastBit(1, u / 16);
    assert ToBits(0, u / 16 / 2) == [] by { LastBit(0, u / 16 / 2); }
    FourBits();
    ToBitsSplit(1, 4, u);
    DropFour(u);
    LowFour(u);
    ValueToBits(4, u % 16);
    assert x[1..5] == ToBits(4, u);
    assert u / 16 == s / 32;
  }

  lemma DropFour(v: nat)
    ensures DropBits(v, 4) == v / 16
  {
    assert v / 2 / 2 == v / 4 && v / 4 / 2 == v / 8 && v / 8 / 2 == v / 16;
    assert DropBits(v / 8, 1) == v / 16;
    assert DropBits(v / 4, 2) == v / 16;
    assert DropBits(v / 2, 3) == v / 16;
  }

  lemma LowFour(v: nat)
    ensures ToBits(4, v) == ToBits(4, v % 16)
  {
    assert v == 16 * (v / 16) + v % 16;
    LowBits(4, v % 16, v / 16);
    assert Pow2(4) == 16;
  }

  lemma {:induction false} LowBits(n: nat, v: nat, m: nat)
    ensures ToBits(n, v + m * Pow2(n)) == ToBits(n, v)
  {
    if n > 0 {
      var k := m * Pow2(n - 1);
      assert m * Pow2(n) == 2 * k;
      assert (v + 2 * k) / 2 == v / 2 + k && (v + 2 * k) % 2 == v % 2;
      LowBits(n - 1, v / 2, m);
    }
  }

  lemma SelectsColumn(k: nat, x: Bits, row: nat, col: nat)
    requires k < 8 && |x| == 6 && row == (if x[0] then 2 else 0) + (if x[5] then 1 else 0) && col == Value(x[1..5]) < 16
    ensures S(k, x) == ToBits(4, Column(SboxRow(k, row), col))
  {
    hide SboxRow, Column, ToBits, Value;
  }

  lemma SLookupIsS(k: nat, s: nat)
    requires k < 8 && s < 64
    ensures ToBits(4, SLookup(k, s)) == S(k, ToBits(6, s))
  {
    hide S, SboxRow, Column, SboxEntry, ToBits, Value, Pow2;
    SixBits(s);
    SelectsColumn(k, ToBits(6, s), s / 32 * 2 + s % 2, s / 2 % 16);
  }

  lemma SPairIs(sg: nat, j1: nat, j2: nat)
    requires sg < 4 && j1 < 64 && j2 < 64
    ensures ToBits(8, SLookup(2 * sg, j1) * 16 + SLookup(2 * sg + 1, j2)) == SPair(sg, ToBits(12, 64 * j1 + j2))
  {
    hide ToBits, SLookup, S, DropBits;
    var s1, s2 := SLookup(2 * sg, j1), SLookup(2 * sg + 1, j2);
    assert (s1 * 16 + s2) / 16 == s1 && (s1 * 16 + s2) % 16 == s2;
    ToBitsSplit(4, 4, s1 * 16 + s2);
    DropFour(s1 * 16 + s2);
    LowFour(s1 * 16 + s2);
    ToBitsSplit(6, 6, 64 * j1 + j2);
    DropSix(j1, j2);
    var x := ToBits(12, 64 * j1 + j2);
    assert x[..6] == ToBits(6, j1) && x[6..] == ToBits(6, j2);
    SLookupIsS(2 * sg, j1);
    SLookupIsS(2 * sg + 1, j2);
  }

  lemma DropSix(j1: nat, j2: nat)
    requires j2 < 64
    ensures DropBits(64 * j1 + j2, 6) == j1 && ToBits(6, 64 * j1 + j2) == ToBits(6, j2)
  {
    var v := 64 * j1 + j2;
    assert v / 64 == j1;
    assert v / 2 / 2 == v / 4 && v / 4 / 16 == v / 64;
    DropFour(v / 4);
    assert DropBits(v, 6) == DropBits(v / 2, 5) == DropBits(v / 4, 4);
    assert Pow2(6) == 64;
    LowBits(6, j2, j1);
  }

  /** to_permute and its four bytes. */
  function ToPermute(sg: nat, b: nat): nat
    requires sg < 4 && b < 256
  {
    b * (if sg == 0 then 0x1000000 else if sg == 1 then 0x10000 else if sg == 2 then 0x100 else 1)
  }

  function ByteOf(v: nat, p: nat): (r: nat)
    requires p < 4
    ensures r < 256
  {
    (if p == 0 then v / 0x1000000 else if p == 1 then v / 0x10000 else if p == 2 then v / 0x100 else v) % 256
  }

  lemma PermuteBytes(sg: nat, b: nat, p: nat)
    requires sg < 4 && b < 256 && p < 4
    ensures ByteOf(ToPermute(sg, b), p) == if p == sg then b else 0
  {
    if sg == 0 {
      assert b * 0x1000000 / 0x10000 == b * 256 && b * 0x1000000 / 256 == b * 65536;
    } else if sg == 1 {
      assert b * 0x10000 / 256 == b * 256;
    } else if sg == 2 {
      assert b * 256 / 0x10000 == 0;
    }
  }

  /** The or of the four eperm32tab lookups is the entry the kernel wants. */
  lemma OrIsEntry(sg: nat, j1: nat, j2: nat)
    requires sg < 4 && j1 < 64 && j2 < 64
    ensures var v := ToPermute(sg, SLookup(2 * sg, j1) * 16 + SLookup(2 * sg + 1, j2));
            var e := (p: nat) requires p < 4 => Entry(EpWires(), p, ToBits(8, ByteOf(v, p)), 64);
            Or(Or(Or(e(0), e(1)), e(2)), e(3)) == SbEntry(sg, ToBits(12, 64 * j1 + j2))
  {
    hide Entry, ToBits, ByteOf, ToPermute, SLookup, Gather, EpWires, SPair, P, Pack, E;
    var b := SLookup(2 * sg, j1) * 16 + SLookup(2 * sg + 1, j2);
    var v, w := ToPermute(sg, b), ToBits(12, 64 * j1 + j2);
    var t := Place(sg, SPair(sg, w));
    SPairIs(sg, j1, j2);
    ToBitsZero(8);
    forall p | 0 <= p < 4
      ensures ToBits(8, ByteOf(v, p)) == Bytes(t)[p]
    {
      PermuteBytes(sg, b, p);
      assert Bytes(t)[p] == if p == sg then SPair(sg, w) else Zeros(8);
    }
    hide Bytes, Place;
    EpGather(t);
    GatherFour(EpWires(), Bytes(t));
  }

  lemma GatherFour(ws: seq<Wire>, xs: seq<Bits>)
    requires |xs| == 4 && (forall p :: 0 <= p < 4 ==> |xs[p]| == 8)
    requires forall i :: 0 <= i < |ws| ==> ws[i].inp < 8 && ws[i].out < 64
    ensures Gather(ws, xs, 8, 64)
      == Or(Or(Or(Entry(ws, 0, xs[0], 64), Entry(ws, 1, xs[1], 64)), Entry(ws, 2, xs[2], 64)), Entry(ws, 3, xs[3], 64))
  {
    hide Entry;
    assert xs[..3][..2] == xs[..2] && xs[..2][..1] == xs[..1] && xs[..1][..0] == [];
    var e := Entry(ws, 0, xs[0], 64);
    assert Or(Zeros(64), e) == e;
    assert Gather(ws, xs[..1], 8, 64) == Or(Gather(ws, [], 8, 64), e);
    assert Gather(ws, xs[..2], 8, 64) == Or(Gather(ws, xs[..1], 8, 64), Entry(ws, 1, xs[1], 64));
    assert Gather(ws, xs[..3], 8, 64) == Or(Gather(ws, xs[..2], 8, 64), Entry(ws, 2, xs[2], 64));
  }
}
