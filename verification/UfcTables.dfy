/**
 The tables of UFC-crypt as wires, and what the lookups through them compute in terms of the
 standard (glibc-2.27/crypt/crypt_util.c, __init_des_r).
 */
module UfcTables {
  import opened Bits
  import opened DesSpec
  import opened UfcData
  import opened DesKernel
  import opened Wires

  /** Where BITMASK puts bit i of a 48-bit value. */
  function EPos(i: nat): (q: nat)
    requires i < 48
    ensures q < 64 && (i < 24 <==> q < 32)
  {
    16 * (i / 12) + 1 + i % 12
  }

  lemma EPosInjective(i: nat, j: nat)
    requires i < 48 && j < 48 && EPos(i) == EPos(j)
    ensures i == j
  {}

  lemma UnpackAt(w: Long, i: nat)
    requires i < 48
    ensures Unpack(w)[i] == w[EPos(i)]
  {
    var a, b, c, d := w[1..13], w[17..29], w[33..45], w[49..61];
    if i < 12 {
      assert EPos(i) == 1 + i && Unpack(w)[i] == a[i];
    } else if i < 24 {
      assert EPos(i) == 17 + (i - 12) && Unpack(w)[i] == b[i - 12];
    } else if i < 36 {
      assert EPos(i) == 33 + (i - 24) && Unpack(w)[i] == c[i - 24];
    } else {
      assert EPos(i) == 49 + (i - 36) && Unpack(w)[i] == d[i - 36];
    }
  }

  lemma PackAt(x: Bits, i: nat)
    requires |x| == 48 && i < 48
    ensures Pack(x)[EPos(i)] == x[i]
  {
    hide Chunks, Unpack, EPos;
    UnpackChunks(x, false);
    UnpackAt(Pack(x), i);
  }

  /** The bit that position q of a packed value holds, if any. */
  lemma PackOnly(x: Bits, q: nat) returns (i: nat)
    requires |x| == 48 && q < 64 && Pack(x)[q]
    ensures i < 48 && EPos(i) == q && x[i]
  {
    var a, b, c, d := Chunk(false, x[..12]), Chunk(false, x[12..24]), Chunk(false, x[24..36]), Chunk(false, x[36..]);
    var k, m := q / 16, q % 16;
    assert Pack(x)[q] == (if k == 0 then a else if k == 1 then b else if k == 2 then c else d)[m];
    assert 1 <= m <= 12;
    i := 12 * k + (m - 1);
    assert i / 12 == k && i % 12 == m - 1;
    PackAt(x, i);
  }

  // ----- eperm32tab: the permutation P followed by the expansion E

  function EpBit(i: nat): (cf: nat)
    requires i < 48
    ensures cf < 32
  {
    Perm32Entry(EselEntry(i) - 1) - 1
  }

  function EpWires(): (ws: seq<Wire>)
    ensures |ws| == 48 && forall i :: 0 <= i < 48 ==> ws[i] == Wire(EpBit(i) / 8, EpBit(i) % 8, EPos(i))
    ensures Fits(ws, 4, 8, 64)
  {
    hide Perm32, EpBit, EPos;
    seq(48, i requires 0 <= i < 48 => Wire(EpBit(i) / 8, EpBit(i) % 8, EPos(i)))
  }

  ghost function Bytes(t: Bits): (xs: seq<Bits>)
    requires |t| == 32
    ensures |xs| == 4 && forall p :: 0 <= p < 4 ==> xs[p] == t[8 * p..8 * p + 8]
  {
    [t[..8], t[8..16], t[16..24], t[24..]]
  }

  lemma EpWireValue(t: Bits, i: nat)
    requires |t| == 32 && i < 48
    ensures Bytes(t)[EpBit(i) / 8][EpBit(i) % 8] == E(P(t))[i]
  {
    hide Perm32, Esel, E, P;
    assert P(t)[Esel(i) - 1] == t[EpBit(i)];
    hide EpBit;
    assert EpBit(i) == 8 * (EpBit(i) / 8) + EpBit(i) % 8;
  }

  lemma EpGatherBit(t: Bits, q: nat)
    requires |t| == 32 && q < 64
    ensures Gather(EpWires(), Bytes(t), 8, 64)[q] == Pack(E(P(t)))[q]
  {
    hide Gather, Pack, E, P, EpBit, Esel, EPos, EpWires, Bytes;
    var ws, xs, x := EpWires(), Bytes(t), E(P(t));
    GatherBit(ws, xs, 8, 64, q);
    if Gather(ws, xs, 8, 64)[q] {
      var i :| 0 <= i < |ws| && ws[i].piece < |xs| && Drives(ws[i], ws[i].piece, xs[ws[i].piece], q);
      EpWireValue(t, i);
      PackAt(x, i);
    }
    if Pack(x)[q] {
      var i := PackOnly(x, q);
      EpWireValue(t, i);
      assert Drives(ws[i], ws[i].piece, xs[ws[i].piece], q);
    }
  }

  /** Looking up the four bytes of t gives E(P(t)), packed. */
  lemma EpGather(t: Bits)
    requires |t| == 32
    ensures Gather(EpWires(), Bytes(t), 8, 64) == Pack(E(P(t)))
  {
    hide Gather, Pack, E, P, EpWires, Bytes;
    forall q | 0 <= q < 64
      ensures Gather(EpWires(), Bytes(t), 8, 64)[q] == Pack(E(P(t)))[q]
    {
      EpGatherBit(t, q);
    }
  }

  // ----- do_pc1: permuted choice 1 on seven bits of each key byte

  function Pc1Bit(h: nat, b: nat): (cf: nat)
    requires h < 2 && b < 28
    ensures cf < 64 && cf / 8 < 8 && cf % 8 < 7
  {
    hide Pc1, Pc1Entry;
    Pc1Entry(28 * h + b) - 1
  }

  function Pc1Wires(h: nat): (ws: seq<Wire>)
    requires h < 2
    ensures |ws| == 28 && forall b :: 0 <= b < 28 ==> ws[b] == Wire(Pc1Bit(h, b) / 8, Pc1Bit(h, b) % 8, 36 + b)
    ensures Fits(ws, 8, 7, 64)
  {
    hide Pc1Bit;
    seq(28, b requires 0 <= b < 28 => Wire(Pc1Bit(h, b) / 8, Pc1Bit(h, b) % 8, 36 + b))
  }

  /** The seven key bits of each byte. */
  ghost function KeySeptets(key: Bits): (xs: seq<Bits>)
    requires |key| == 64
    ensures |xs| == 8 && forall p :: 0 <= p < 8 ==> xs[p] == key[8 * p..8 * p + 7]
  {
    seq(8, p requires 0 <= p < 8 => key[8 * p..8 * p + 7])
  }

  lemma Pc1WireValue(key: Bits, h: nat, b: nat)
    requires |key| == 64 && h < 2 && b < 28
    ensures KeySeptets(key)[Pc1Bit(h, b) / 8][Pc1Bit(h, b) % 8] == PermutedChoice1(key)[28 * h + b]
  {
    hide Pc1, PermutedChoice1, KeySeptets;
    assert PermutedChoice1(key)[28 * h + b] == key[Pc1Bit(h, b)];
    hide Pc1Bit;
    assert Pc1Bit(h, b) == 8 * (Pc1Bit(h, b) / 8) + Pc1Bit(h, b) % 8;
  }

  lemma Pc1GatherBit(key: Bits, h: nat, q: nat)
    requires |key| == 64 && h < 2 && q < 64
    ensures Gather(Pc1Wires(h), KeySeptets(key), 7, 64)[q] == (q >= 36 && PermutedChoice1(key)[28 * h + (q - 36)])
  {
    hide Gather, PermutedChoice1, Pc1Wires, Pc1Bit, KeySeptets;
    var ws, xs := Pc1Wires(h), KeySeptets(key);
    GatherBit(ws, xs, 7, 64, q);
    if q >= 36 {
      var b := q - 36;
      Pc1WireValue(key, h, b);
      if PermutedChoice1(key)[28 * h + b] {
        assert Drives(ws[b], ws[b].piece, xs[ws[b].piece], q);
      }
    }
  }

  /** Looking up the eight key bytes gives one half of permuted choice 1 in the low 28 bits. */
  lemma Pc1Gather(key: Bits, h: nat)
    requires |key| == 64 && h < 2
    ensures Gather(Pc1Wires(h), KeySeptets(key), 7, 64) == Zeros(36) + PermutedChoice1(key)[28 * h..28 * h + 28]
  {
    hide Gather, PermutedChoice1, Pc1Wires, KeySeptets;
    var g, c := Gather(Pc1Wires(h), KeySeptets(key), 7, 64), Zeros(36) + PermutedChoice1(key)[28 * h..28 * h + 28];
    forall q | 0 <= q < 64
      ensures g[q] == c[q]
    {
      Pc1GatherBit(key, h, q);
    }
  }

  // ----- do_pc2: permuted choice 2 on seven bits at a time of each half

  function Pc2Bit(h: nat, b: nat): (cf: nat)
    requires h < 2 && b < 24
    ensures cf < 28
  {
    hide Pc2, Pc2Entry;
    assert 24 * h + b < 24 <==> h == 0;
    Pc2Entry(24 * h + b) - 1 - 28 * h
  }

  function Pc2Wires(h: nat): (ws: seq<Wire>)
    requires h < 2
    ensures |ws| == 24 && forall b :: 0 <= b < 24 ==> ws[b] == Wire(Pc2Bit(h, b) / 7, Pc2Bit(h, b) % 7, EPos(b))
    ensures Fits(ws, 4, 7, 32)
  {
    hide Pc2Bit, EPos;
    seq(24, b requires 0 <= b < 24 => Wire(Pc2Bit(h, b) / 7, Pc2Bit(h, b) % 7, EPos(b)))
  }

  ghost function Septets(c: Bits): (xs: seq<Bits>)
    requires |c| == 28
    ensures |xs| == 4 && forall p :: 0 <= p < 4 ==> xs[p] == c[7 * p..7 * p + 7]
  {
    [c[..7], c[7..14], c[14..21], c[21..]]
  }

  lemma Pc2WireValue(c: Bits, d: Bits, h: nat, b: nat)
    requires |c| == 28 && |d| == 28 && h < 2 && b < 24
    ensures Septets(if h == 0 then c else d)[Pc2Bit(h, b) / 7][Pc2Bit(h, b) % 7] == PermutedChoice2(c + d)[24 * h + b]
  {
    hide Pc2, PermutedChoice2, Septets;
    assert PermutedChoice2(c + d)[24 * h + b] == (c + d)[28 * h + Pc2Bit(h, b)];
    hide Pc2Bit;
    assert Pc2Bit(h, b) == 7 * (Pc2Bit(h, b) / 7) + Pc2Bit(h, b) % 7;
  }

  lemma EPosHalf(h: nat, b: nat)
    requires h < 2 && b < 24
    ensures EPos(24 * h + b) == 32 * h + EPos(b)
  {}

  /** Wire b of a half drives its output exactly if that value, packed, has the bit there. */
  lemma Pc2Driven(c: Bits, d: Bits, h: nat, b: nat)
    requires |c| == 28 && |d| == 28 && h < 2 && b < 24
    ensures var w, xs := Pc2Wires(h)[b], Septets(if h == 0 then c else d);
            Drives(w, w.piece, xs[w.piece], w.out) <==> Pack(PermutedChoice2(c + d))[32 * h + w.out]
  {
    hide PermutedChoice2, Pc2Bit, Pack, Septets, EPos;
    Pc2WireValue(c, d, h, b);
    EPosHalf(h, b);
    PackAt(PermutedChoice2(c + d), 24 * h + b);
  }

  lemma Pc2GatherBit(c: Bits, d: Bits, h: nat, q: nat)
    requires |c| == 28 && |d| == 28 && h < 2 && q < 32
    ensures Gather(Pc2Wires(h), Septets(if h == 0 then c else d), 7, 32)[q] == Pack(PermutedChoice2(c + d))[32 * h + q]
  {
    hide Gather, PermutedChoice2, Pc2Wires, Pc2Bit, Pack, Septets, EPos;
    var ws, xs, x := Pc2Wires(h), Septets(if h == 0 then c else d), PermutedChoice2(c + d);
    GatherBit(ws, xs, 7, 32, q);
    if Gather(ws, xs, 7, 32)[q] {
      var b :| 0 <= b < |ws| && ws[b].piece < |xs| && Drives(ws[b], ws[b].piece, xs[ws[b].piece], q);
      Pc2Driven(c, d, h, b);
    }
    if Pack(x)[32 * h + q] {
      var i := PackOnly(x, 32 * h + q);
      EPosHalf(h, i - 24 * h);
      Pc2Driven(c, d, h, i - 24 * h);
    }
  }

  /** Looking up the septets of both halves gives permuted choice 2, packed. */
  lemma Pc2Gather(c: Bits, d: Bits)
    requires |c| == 28 && |d| == 28
    ensures Gather(Pc2Wires(0), Septets(c), 7, 32) + Gather(Pc2Wires(1), Septets(d), 7, 32)
      == Pack(PermutedChoice2(c + d))
  {
    hide Gather, PermutedChoice2, Pc2Wires, Pack, Septets;
    var g := Gather(Pc2Wires(0), Septets(c), 7, 32) + Gather(Pc2Wires(1), Septets(d), 7, 32);
    var w := Pack(PermutedChoice2(c + d));
    forall q | 0 <= q < 64
      ensures g[q] == w[q]
    {
      if q < 32 {
        Pc2GatherBit(c, d, 0, q);
      } else {
        Pc2GatherBit(c, d, 1, q - 32);
      }
    }
  }

  // ----- efp: undo the expansion and apply the final permutation

  /** inv tells for every bit of a half one place where E puts it, for both halves. */
  ghost predicate InvertsE(inv: seq<nat>) {
    |inv| == 64 && forall f :: 0 <= f < 32 ==> PlaceOf(inv, f)
  }

  ghost predicate PlaceOf(inv: seq<nat>, f: nat) {
    |inv| == 64 && f < 32 && inv[f] < 48 && Esel(inv[f]) - 1 == f && inv[f + 32] == inv[f] + 48
  }

  ghost predicate Places(inv: seq<nat>) {
    |inv| == 64 && forall f :: 0 <= f < 64 ==> inv[f] < 96
  }

  function EfpBit(inv: seq<nat>, b: nat): (e: nat)
    requires Places(inv) && b < 64
    ensures e < 96
  {
    inv[FinalPermEntry(b) - 1]
  }

  function EfpWires(inv: seq<nat>): (ws: seq<Wire>)
    requires Places(inv)
    ensures |ws| == 64 && forall b :: 0 <= b < 64 ==> ws[b] == Wire(EfpBit(inv, b) / 6, EfpBit(inv, b) % 6, b)
    ensures Fits(ws, 16, 6, 64)
  {
    hide EfpBit;
    seq(64, b requires 0 <= b < 64 => Wire(EfpBit(inv, b) / 6, EfpBit(inv, b) % 6, b))
  }

  ghost function Sextets(x: Bits): (xs: seq<Bits>)
    requires |x| == 96
    ensures |xs| == 16 && forall p :: 0 <= p < 16 ==> xs[p] == x[6 * p..6 * p + 6]
  {
    seq(16, p requires 0 <= p < 16 => x[6 * p..6 * p + 6])
  }

  lemma InvertsEPlaces(inv: seq<nat>)
    requires InvertsE(inv)
    ensures Places(inv)
  {
    forall f | 0 <= f < 64
      ensures inv[f] < 96
    {
      var g := if f < 32 then f else f - 32;
      assert PlaceOf(inv, g);
    }
  }

  lemma InverseValue(inv: seq<nat>, l: Bits, r: Bits, f: nat)
    requires InvertsE(inv) && Places(inv) && |l| == 32 && |r| == 32 && f < 64
    ensures (E(l) + E(r))[inv[f]] == (l + r)[f]
  {
    hide E;
    if f < 32 {
      assert PlaceOf(inv, f);
      assert E(l)[inv[f]] == l[f];
    } else {
      assert PlaceOf(inv, f - 32);
      assert E(r)[inv[f - 32]] == r[f - 32];
    }
  }

  lemma SextetAt(x: Bits, e: nat)
    requires |x| == 96 && e < 96
    ensures Sextets(x)[e / 6][e % 6] == x[e]
  {
    assert e == 6 * (e / 6) + e % 6;
  }

  lemma EfpWireValue(inv: seq<nat>, l: Bits, r: Bits, b: nat)
    requires InvertsE(inv) && Places(inv) && |l| == 32 && |r| == 32 && b < 64
    ensures Sextets(E(l) + E(r))[EfpBit(inv, b) / 6][EfpBit(inv, b) % 6] == Fp(l + r)[b]
  {
    hide FinalPerm, Fp, E, Sextets, InvertsE;
    InverseValue(inv, l, r, FinalPerm(b) - 1);
    SextetAt(E(l) + E(r), EfpBit(inv, b));
  }

  /** Looking up the sixteen groups of E(l) and E(r) gives the final permutation of l and r. */
  lemma EfpGather(inv: seq<nat>, l: Bits, r: Bits)
    requires InvertsE(inv) && Places(inv) && |l| == 32 && |r| == 32
    ensures Gather(EfpWires(inv), Sextets(E(l) + E(r)), 6, 64) == Fp(l + r)
  {
    hide Gather, EfpWires, EfpBit, Fp, E, Sextets, InvertsE;
    var ws, xs, y := EfpWires(inv), Sextets(E(l) + E(r)), Fp(l + r);
    forall q | 0 <= q < 64
      ensures Gather(ws, xs, 6, 64)[q] == y[q]
    {
      GatherBit(ws, xs, 6, 64, q);
      EfpWireValue(inv, l, r, q);
      if y[q] {
        assert Drives(ws[q], ws[q].piece, xs[ws[q].piece], q);
      }
    }
  }
}
