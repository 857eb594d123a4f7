/**
 The kernel on E-expanded halves, with the precomputed tables, carries out the rounds of the
 standard.
 */
module DesRefinement {
  import opened Bits
  import opened DesSpec
  import opened DesKernel

  /** A half of the standard as the kernel holds it. */
  function Expand(h: Bits): Long
    requires |h| == 32
  {
    Pack(E(h))
  }

  /** Byte sg of a half, the others zero. */
  function Place(sg: nat, b: Bits): (t: Bits)
    requires sg < 4 && |b| == 8
    ensures |t| == 32
  {
    Zeros(8 * sg) + b + Zeros(24 - 8 * sg)
  }

  /** Two selection functions on twelve bits. */
  function SPair(sg: nat, v: Bits): (b: Bits)
    requires sg < 4 && |v| == 12
    ensures |b| == 8
  {
    S(2 * sg, v[..6]) + S(2 * sg + 1, v[6..])
  }

  /**
   What sb table sg holds for the twelve bits v: both selections, in place, permuted and expanded
   for the next round.
   */
  function SbEntry(sg: nat, v: Bits): Long
    requires sg < 4 && |v| == 12
  {
    Expand(P(Place(sg, SPair(sg, v))))
  }

  ghost predicate FreshPair(sb: seq<Long>, sg: nat)
    requires sg + 1 < 4
  {
    && |sb| == 8192
    && (forall i :: 0 <= i < 4096 ==> sb[i] == SbEntry(sg, ToBits(12, i)))
    && (forall i :: 0 <= i < 4096 ==> sb[4096 + i] == SbEntry(sg + 1, ToBits(12, i)))
  }

  lemma FreshOk(sb: seq<Long>, sg: nat)
    requires sg + 1 < 4 && FreshPair(sb, sg)
    ensures TablesOk(sb)
  {
    hide SPair, Place, P, E, Chunks, Unpack;
    forall i | 0 <= i < 8192
      ensures InRange(sb[i], false)
    {
      if i >= 4096 {
        assert sb[4096 + (i - 4096)] == sb[i];
      }
      var g, v := if i < 4096 then sg else sg + 1, ToBits(12, if i < 4096 then i else i - 4096);
      UnpackChunks(E(P(Place(g, SPair(g, v)))), false);
    }
  }

  // ----- everything in a round after the selections is linear

  lemma ExpandXor(a: Bits, b: Bits)
    requires |a| == 32 && |b| == 32
    ensures Xor(Expand(a), Expand(b)) == Expand(Xor(a, b))
  {
    hide Esel;
    assert E(Xor(a, b)) == Xor(E(a), E(b));
    hide E, Chunks;
    XorChunks(false, false, E(a), E(b));
  }

  lemma PXor(a: Bits, b: Bits)
    requires |a| == 32 && |b| == 32
    ensures P(Xor(a, b)) == Xor(P(a), P(b))
  {
    hide Perm32;
  }

  lemma PlaceXor(a: Bits, b: Bits, c: Bits, d: Bits)
    requires |a| == 8 && |b| == 8 && |c| == 8 && |d| == 8
    ensures Xor(Xor(Xor(Place(3, d), Place(2, c)), Place(1, b)), Place(0, a)) == a + b + c + d
  {}

  lemma EntriesXor(a: Bits, b: Bits, c: Bits, d: Bits)
    requires |a| == 32 && |b| == 32 && |c| == 32 && |d| == 32
    ensures Xor(Xor(Xor(Expand(P(d)), Expand(P(c))), Expand(P(b))), Expand(P(a)))
      == Expand(P(Xor(Xor(Xor(d, c), b), a)))
  {
    hide P, Expand;
    ExpandXor(P(d), P(c));
    PXor(d, c);
    ExpandXor(P(Xor(d, c)), P(b));
    PXor(Xor(d, c), b);
    ExpandXor(P(Xor(Xor(d, c), b)), P(a));
    PXor(Xor(Xor(d, c), b), a);
  }

  lemma SBoxesPairs(x: Bits)
    requires |x| == 48
    ensures SBoxes(0, x) == SPair(0, x[..12]) + SPair(1, x[12..24]) + SPair(2, x[24..36]) + SPair(3, x[36..])
  {
    hide SBoxes, SPair;
    SBoxesPair(0, x);
    SBoxesPair(2, x[12..]);
    SBoxesPair(4, x[24..]);
    SBoxesPair(6, x[36..]);
    assert x[12..][..12] == x[12..24] && x[12..][12..] == x[24..];
    assert x[24..][..12] == x[24..36] && x[24..][12..] == x[36..];
    assert x[36..][..12] == x[36..];
    assert SBoxes(8, x[36..][12..]) == [];
  }

  lemma SBoxesPair(k: nat, x: Bits)
    requires k <= 6 && k % 2 == 0 && |x| == 6 * (8 - k)
    ensures SBoxes(k, x) == SPair(k / 2, x[..12]) + SBoxes(k + 2, x[12..])
  {
    hide S;
    assert x[6..][..6] == x[..12][6..] && x[..12][..6] == x[..6] && x[6..][6..] == x[12..];
    assert SBoxes(k, x) == S(k, x[..6]) + SBoxes(k + 1, x[6..]);
    assert SBoxes(k + 1, x[6..]) == S(k + 1, x[6..12]) + SBoxes(k + 2, x[12..]);
  }

  /**
   What the lookups select when the 0x8000 bits are missing: the second table of each pair is never
   reached, and the first one serves two groups of twelve bits.
   */
  function Unflagged(x: Bits): (h: Bits)
    requires |x| == 48
    ensures |h| == 32
  {
    var a, b := Xor(SPair(0, x[..12]), SPair(0, x[12..24])), Xor(SPair(2, x[24..36]), SPair(2, x[36..]));
    a + Zeros(8) + b + Zeros(8)
  }

  lemma PlaceTwice(a: Bits, b: Bits, c: Bits, d: Bits)
    requires |a| == 8 && |b| == 8 && |c| == 8 && |d| == 8
    ensures Xor(Xor(Xor(Place(2, d), Place(2, c)), Place(0, b)), Place(0, a))
         == Xor(a, b) + Zeros(8) + Xor(c, d) + Zeros(8)
  {}

  /** The four lookups of a round are f of the standard, expanded. */
  lemma LookupsAreF(sb01: seq<Long>, sb23: seq<Long>, s: Long, flag: bool)
    requires FreshPair(sb01, 0) && FreshPair(sb23, 2) && InRange(s, flag)
    requires TablesOk(sb01) && TablesOk(sb23)
    ensures Spread(s)
    ensures Lookups(sb01, sb23, s) == Expand(P(if flag then SBoxes(0, Unpack(s)) else Unflagged(Unpack(s))))
  {
    hide Unpack, Value, InRange, SBoxes, SPair, Place, P, Expand, Xor, ToBits, TablesOk, Pow2;
    var x := Unpack(s);
    Offsets(s, flag);
    ToBitsValue(x[..12]);
    ToBitsValue(x[12..24]);
    ToBitsValue(x[24..36]);
    ToBitsValue(x[36..]);
    if flag {
      assert sb01[4096 + Value(x[12..24])] == SbEntry(1, x[12..24]);
      assert sb23[4096 + Value(x[36..])] == SbEntry(3, x[36..]);
      var a, b, c, d := SPair(0, x[..12]), SPair(1, x[12..24]), SPair(2, x[24..36]), SPair(3, x[36..]);
      EntriesXor(Place(0, a), Place(1, b), Place(2, c), Place(3, d));
      PlaceXor(a, b, c, d);
      SBoxesPairs(x);
    } else {
      var a, b, c, d := SPair(0, x[..12]), SPair(0, x[12..24]), SPair(2, x[24..36]), SPair(2, x[36..]);
      EntriesXor(Place(0, a), Place(0, b), Place(2, c), Place(2, d));
      PlaceTwice(a, b, c, d);
    }
  }

  // ----- key tables

  /** An entry of a key table: a round key, or nothing. */
  predicate IsKey(k: Bits) {
    |k| == 48 || k == []
  }

  function PackEntry(k: Bits): Long
    requires IsKey(k)
  {
    if |k| == 48 then PackKey(k) else Zeros(64)
  }

  function PackKeys(keys: seq<Bits>): (ks: seq<Long>)
    requires forall i :: 0 <= i < |keys| ==> IsKey(keys[i])
    ensures |ks| == |keys| && forall i :: 0 <= i < |keys| ==> ks[i] == PackEntry(keys[i])
  {
    seq(|keys|, i requires 0 <= i < |keys| => PackEntry(keys[i]))
  }

  lemma EntrySpread(k: Bits)
    requires IsKey(k)
    ensures Spread(PackEntry(k))
  {
    hide Unpack;
    if |k| == 48 {
      UnpackChunks(k, true);
    } else {
      ZeroEntry();
    }
  }

  lemma ZeroEntry()
    ensures InRange(Zeros(64), false) && Unpack(Zeros(64)) == Zeros(48)
  {
    var c := Chunk(false, Zeros(12));
    assert c == Zeros(16);
    assert Zeros(48)[..12] == Zeros(12) && Zeros(48)[12..24] == Zeros(12);
    assert Zeros(48)[24..36] == Zeros(12) && Zeros(48)[36..] == Zeros(12);
    assert c + c + c + c == Zeros(64);
    assert Unpack(Zeros(64)) == Zeros(48);
  }
}
