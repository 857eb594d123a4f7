/**
 The key schedule of UFC-crypt (glibc-2.27/crypt/crypt_util.c, _ufc_mk_keytab_r), 64-bit build.
 */
module KeyTab {
  import opened Bits
  import opened DesSpec
  import opened UfcData
  import opened DesKernel
  import opened DesRefinement
  import opened Wires
  import opened UfcTables
  import opened UfcSetup

  /** 0x0000800000008000. */
  const KEY_FLAGS: Long := Zeros(16) + [true] + Zeros(31) + [true] + Zeros(15)

  lemma FlagKey(x: Bits)
    requires |x| == 48
    ensures Or(Pack(x), KEY_FLAGS) == PackKey(x)
  {
    var a, b, c, d := x[..12], x[12..24], x[24..36], x[36..];
    var u, v := Pack(x), PackKey(x);
    assert u == Chunk(false, a) + Chunk(false, b) + Chunk(false, c) + Chunk(false, d);
    assert v == Chunk(false, a) + Chunk(true, b) + Chunk(false, c) + Chunk(true, d);
    forall q | 0 <= q < 64
      ensures Or(u, KEY_FLAGS)[q] == v[q]
    {}
  }

  /** The septets of the key bytes select one half of permuted choice 1. */
  method SelectHalf(t: array2<Bits>, h: nat, ktab: seq<nat>, ghost key: Bits) returns (v: Long)
    requires h < 2 && |ktab| == 8 && |key| == 64 && Holds(t, Pc1Wires(h), 8, 7, 64)
    requires forall i :: 0 <= i < 8 ==> ToBits(7, ktab[i] % 128) == KeySeptets(key)[i]
    ensures v == Zeros(36) + PermutedChoice1(key)[28 * h..28 * h + 28]
  {
    hide Entry, Pc1Wires, PermutedChoice1, KeySeptets, ToBits;
    ghost var ws, xs := Pc1Wires(h), KeySeptets(key);
    assert Pow2(7) == 128;
    hide Pow2;
    v := Zeros(64);
    for i := 0 to 8
      invariant v == Gather(ws, xs[..i], 7, 64)
    {
      assert xs[..i + 1][..i] == xs[..i];
      v := Or(v, t[i, ktab[i] % 128]);
    }
    assert xs[..8] == xs;
    Pc1Gather(key, h);
  }

  /** Four lookups with the septets of the low 28 bits. */
  method LookupSeptets(t: array2<Bits>, h: nat, v: Long) returns (w: Word)
    requires h < 2 && Holds(t, Pc2Wires(h), 4, 7, 32)
    ensures w == Gather(Pc2Wires(h), Septets(Low(v, 28)), 7, 32)
  {
    hide Entry, Pc2Wires, Pow2, Value, Shr, Septets;
    ghost var ws, xs := Pc2Wires(h), Septets(Low(v, 28));
    SeptetsOf(v);
    LookupEntry(t, ws, 4, 7, 32, 0, xs[0]);
    LookupEntry(t, ws, 4, 7, 32, 1, xs[1]);
    LookupEntry(t, ws, 4, 7, 32, 2, xs[2]);
    LookupEntry(t, ws, 4, 7, 32, 3, xs[3]);
    w := t[0, Value(Low(Shr(v, 21), 7))];
    w := Or(w, t[1, Value(Low(Shr(v, 14), 7))]);
    w := Or(w, t[2, Value(Low(Shr(v, 7), 7))]);
    w := Or(w, t[3, Value(Low(v, 7))]);
    GatherSeptets(ws, xs);
  }

  lemma SeptetsOf(v: Long)
    ensures Septets(Low(v, 28))
      == [Low(Shr(v, 21), 7), Low(Shr(v, 14), 7), Low(Shr(v, 7), 7), Low(v, 7)]
  {
    LowShr(v, 21, 7);
    LowShr(v, 14, 7);
    LowShr(v, 7, 7);
    hide Shr;
    assert v[36..][..7] == v[36..43] && v[36..][7..14] == v[43..50] && v[36..][14..21] == v[50..57];
  }

  lemma GatherSeptets(ws: seq<Wire>, xs: seq<Bits>)
    requires |xs| == 4 && (forall p :: 0 <= p < 4 ==> |xs[p]| == 7)
    requires forall i :: 0 <= i < |ws| ==> ws[i].inp < 7 && ws[i].out < 32
    ensures Gather(ws, xs, 7, 32)
      == Or(Or(Or(Entry(ws, 0, xs[0], 32), Entry(ws, 1, xs[1], 32)), Entry(ws, 2, xs[2], 32)), Entry(ws, 3, xs[3], 32))
  {
    hide Entry;
    assert xs[..3][..2] == xs[..2] && xs[..2][..1] == xs[..1] && xs[..1][..0] == [];
    var e := Entry(ws, 0, xs[0], 32);
    assert Or(Zeros(32), e) == e;
    assert Gather(ws, xs[..1], 7, 32) == Or(Gather(ws, [], 7, 32), e);
    assert Gather(ws, xs[..2], 7, 32) == Or(Gather(ws, xs[..1], 7, 32), Entry(ws, 1, xs[1], 32));
    assert Gather(ws, xs[..3], 7, 32) == Or(Gather(ws, xs[..2], 7, 32), Entry(ws, 2, xs[2], 32));
  }

  /** _ufc_mk_keytab_r: sixteen round keys of the standard, packed. */
  method MakeKeys(tables: SmallTables, keysched: array<Long>, ktab: seq<nat>, ghost key: Bits)
    requires tables.Valid() && keysched.Length == 16 && |ktab| == 8 && |key| == 64
    requires forall i :: 0 <= i < 8 ==> ToBits(7, ktab[i] % 128) == KeySeptets(key)[i]
    modifies keysched
    ensures keysched[..] == PackKeys(KeySchedule(key))
  {
    hide Entry, Pc1Wires, Pc2Wires, EpWires, EfpWires, InvertsE, Places, PermutedChoice1, KeySeptets, ToBits, RoundKey,
         Pack, Gather, Septets, Or, Join, KEY_FLAGS, Rotated, Rots, RotsEntry, PackKey, Pow2;
    var v1 := SelectHalf(tables.pc1a, 0, ktab, key);
    var v2 := SelectHalf(tables.pc1b, 1, ktab, key);
    ghost var c, d := v1, v2;
    assert Low(c, 28) == PermutedChoice1(key)[..28] && Low(d, 28) == PermutedChoice1(key)[28..];
    for i := 0 to 16
      invariant v1 == Rolled(c, i) && v2 == Rolled(d, i)
      invariant forall n :: 0 <= n < i ==> keysched[n] == PackEntry(RoundKey(key, n))
    {
      v1 := Rotated(v1, RotsEntry(i));
      v2 := Rotated(v2, RotsEntry(i));
      var w1 := LookupSeptets(tables.pc2a, 0, v1);
      var w2 := LookupSeptets(tables.pc2b, 1, v2);
      RoundKeyPacked(key, c, d, i, w1, w2);
      keysched[i] := Or(Join(w1, w2), KEY_FLAGS);
    }
  }

  lemma RoundKeyPacked(key: Bits, c: Long, d: Long, i: nat, w1: Word, w2: Word)
    requires |key| == 64 && i < 16 && Echoes(c) && Echoes(d)
    requires Low(c, 28) == PermutedChoice1(key)[..28] && Low(d, 28) == PermutedChoice1(key)[28..]
    requires w1 == Gather(Pc2Wires(0), Septets(Low(Rolled(c, i + 1), 28)), 7, 32)
    requires w2 == Gather(Pc2Wires(1), Septets(Low(Rolled(d, i + 1), 28)), 7, 32)
    ensures Or(Join(w1, w2), KEY_FLAGS) == PackKey(RoundKey(key, i))
  {
    hide Gather, Pc2Wires, Septets, PermutedChoice1, PermutedChoice2, Shifted, Pack, PackKey, KEY_FLAGS, Rolled;
    RolledIsShifted(c, i + 1);
    RolledIsShifted(d, i + 1);
    Pc2Gather(Low(Rolled(c, i + 1), 28), Low(Rolled(d, i + 1), 28));
    FlagKey(RoundKey(key, i));
  }
}
