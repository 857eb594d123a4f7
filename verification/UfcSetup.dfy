/**
 The state of UFC-crypt (glibc-2.27/crypt/crypt_util.c): the small tables, the key schedule, the
 salted sb tables and the operations on them.
 */
module UfcSetup {
  import opened Bits
  import opened DesSpec
  import opened UfcData
  import opened DesKernel
  import opened DesRefinement
  import opened Wires
  import opened UfcTables
  import opened UfcSalt

  // ----- the unmasked rotation of the key schedule

  /** Whatever has been shifted out of the low 28 bits repeats bits inside them. */
  ghost predicate Echoes(v: Bits)
    requires |v| >= 28
  {
    forall p :: 0 <= p < |v| - 28 && v[p] ==> v[p + 28]
  }

  function Rotated(v: Bits, n: nat): (r: Bits)
    requires |v| >= 28 && n <= 28
    ensures |r| == |v|
  {
    Or(Shl(v, n), Shr(v, 28 - n))
  }

  /** The rotation without a mask agrees with a 28-bit rotation on the low 28 bits, for a word of any width. */
  lemma RotatedLow(v: Bits, n: nat)
    requires |v| >= 28 && n <= 28 && Echoes(v)
    ensures Low(Rotated(v, n), 28) == RotateLeft(Low(v, 28), n) && Echoes(Rotated(v, n))
  {
    var w, m := Rotated(v, n), |v| - 28;
    forall i | 0 <= i < 28
      ensures w[m + i] == RotateLeft(Low(v, 28), n)[i]
    {
      if i < 28 - n {
        assert Shl(v, n)[m + i] == v[m + i + n];
        assert Shr(v, 28 - n)[m + i] == (m + i >= 28 - n && v[m + i - (28 - n)]);
      } else {
        assert Shr(v, 28 - n)[m + i] == v[m + i - (28 - n)];
        assert !Shl(v, n)[m + i];
      }
    }
    forall p | 0 <= p < m && w[p]
      ensures w[p + 28]
    {
      assert Shl(v, n)[p] == v[p + n];
      assert Shr(v, 28 - n)[p + 28] == v[p + n];
      if Shr(v, 28 - n)[p] {
        assert v[p - (28 - n)];
        assert v[p - (28 - n) + 28];
      }
    }
  }

  /** After any number of rounds of the key schedule the low 28 bits are the shifted half of the standard. */
  function Rolled(v: Bits, n: nat): (r: Bits)
    requires |v| >= 28 && n <= 16
    ensures |r| == |v|
  {
    if n == 0 then v else Rotated(Rolled(v, n - 1), Rots(n - 1))
  }

  lemma {:induction false} RolledIsShifted(v: Bits, n: nat)
    requires |v| >= 28 && n <= 16 && Echoes(v)
    ensures Low(Rolled(v, n), 28) == Shifted(Low(v, 28), n) && Echoes(Rolled(v, n))
  {
    if n > 0 {
      RolledIsShifted(v, n - 1);
      RotatedLow(Rolled(v, n - 1), Rots(n - 1));
    }
  }

  // ----- the small tables

  ghost predicate Holds(t: array2<Bits>, ws: seq<Wire>, pieces: nat, n: nat, width: nat)
    reads t
  {
    && Fits(ws, pieces, n, width) && t.Length0 == pieces && t.Length1 == Pow2(n)
    && forall p, j :: 0 <= p < pieces && 0 <= j < Pow2(n) ==> t[p, j] == Entry(ws, p, ToBits(n, j), width)
  }

  lemma LookupEntry(t: array2<Bits>, ws: seq<Wire>, pieces: nat, n: nat, width: nat, p: nat, x: Bits)
    requires Holds(t, ws, pieces, n, width) && p < pieces && |x| == n
    ensures t[p, Value(x)] == Entry(ws, p, x, width)
  {
    ToBitsValue(x);
    hide Entry, ToBits, Value;
  }

  /** The e_inverse loop of __init_des_r: the last write to an entry wins, so it names the first place of that bit. */
  method InvertE() returns (inv: seq<nat>)
    ensures InvertsE(inv) && Places(inv)
  {
    hide Esel, EselEntry;
    var a := new nat[64](_ => 0);
    ghost var hit: set<nat> := {};
    for bit := 48 downto 0
      invariant forall f <- hit :: PlaceOf(a[..], f)
      invariant forall b {:trigger Hit(b, hit)} :: bit <= b < 48 ==> Hit(b, hit)
    {
      ghost var before, was := a[..], hit;
      a[EselEntry(bit) - 1] := bit;
      a[EselEntry(bit) - 1 + 32] := bit + 48;
      hit := hit + {Esel(bit) - 1};
      PlaceKept(before, a[..], was, bit);
      forall b | bit <= b < 48 ensures Hit(b, hit) {
        assert b > bit ==> Hit(b, was);
      }
    }
    inv := a[..];
    forall f | 0 <= f < 32
      ensures PlaceOf(inv, f)
    {
      EselOnto(f);
      assert Hit(6 * (f / 4) + f % 4 + 1, hit);
    }
    InvertsEPlaces(inv);
  }

  ghost predicate Hit(b: nat, hit: set<nat>) {
    b < 48 && Esel(b) - 1 in hit
  }

  lemma PlaceKept(before: seq<nat>, after: seq<nat>, hit: set<nat>, bit: nat)
    requires |before| == 64 && bit < 48 && after == before[Esel(bit) - 1 := bit][Esel(bit) - 1 + 32 := bit + 48]
    requires forall f <- hit :: PlaceOf(before, f)
    ensures forall f <- hit :: PlaceOf(after, f)
    ensures PlaceOf(after, Esel(bit) - 1)
  {
    hide Esel;
    forall f | f in hit ensures PlaceOf(after, f) {
      assert PlaceOf(before, f);
    }
  }

  lemma EselOnto(f: nat)
    requires f < 32
    ensures 6 * (f / 4) + f % 4 + 1 < 48 && Esel(6 * (f / 4) + f % 4 + 1) - 1 == f
  {
    var i := 6 * (f / 4) + f % 4 + 1;
    assert i / 6 == f / 4 && i % 6 == f % 4 + 1;
  }

  class SmallTables {
    const pc1a: array2<Bits>    // do_pc1[..][0][..]
    const pc1b: array2<Bits>    // do_pc1[..][1][..]
    const pc2a: array2<Bits>    // do_pc2[..4]
    const pc2b: array2<Bits>    // do_pc2[4..]
    const eperm: array2<Bits>   // eperm32tab
    const efp: array2<Bits>
    const inv: seq<nat>         // e_inverse

    ghost predicate Valid()
      reads pc1a, pc1b, pc2a, pc2b, eperm, efp
    {
      && Holds(pc1a, Pc1Wires(0), 8, 7, 64) && Holds(pc1b, Pc1Wires(1), 8, 7, 64)
      && Holds(pc2a, Pc2Wires(0), 4, 7, 32) && Holds(pc2b, Pc2Wires(1), 4, 7, 32)
      && Holds(eperm, EpWires(), 4, 8, 64)
      && InvertsE(inv) && Places(inv) && Holds(efp, EfpWires(inv), 16, 6, 64)
    }

    /** The part of __init_des_r that runs once per process. */
    constructor ()
      ensures Valid()
      ensures fresh(pc1a) && fresh(pc1b) && fresh(pc2a) && fresh(pc2b) && fresh(eperm) && fresh(efp)
    {
      hide Entry, Pc1Wires, Pc2Wires, EpWires, EfpWires, InvertsE, Places;
      var a := Fill(Pc1Wires(0), 8, 7, 64);
      var b := Fill(Pc1Wires(1), 8, 7, 64);
      var c := Fill(Pc2Wires(0), 4, 7, 32);
      var d := Fill(Pc2Wires(1), 4, 7, 32);
      var e := Fill(EpWires(), 4, 8, 64);
      var i := InvertE();
      var f := Fill(EfpWires(i), 16, 6, 64);
      pc1a, pc1b, pc2a, pc2b, eperm, efp, inv := a, b, c, d, e, f, i;
    }
  }

  // ----- the salted tables and the key schedule

  /** sb holds table sg as initialised, shuffled by the salt. */
  ghost predicate Salted(sb: seq<Long>, sg: nat, saltbits: Word)
    requires sg < 4
  {
    |sb| == 4096 && forall i :: 0 <= i < 4096 ==> sb[i] == Shuffle(SbEntry(sg, ToBits(12, i)), saltbits)
  }

  /** shuffle_sb. */
  method ShuffleSb(sb: array<Long>, mask: Word, ghost sg: nat, ghost saltbits: Word)
    requires sg < 4 && Salted(sb[..], sg, saltbits)
    modifies sb
    ensures Salted(sb[..], sg, Xor(saltbits, mask))
  {
    hide Shuffle, SbEntry, ToBits;
    for j := 0 to 4096
      invariant forall i :: j <= i < 4096 ==> sb[i] == old(sb[i])
      invariant forall i :: 0 <= i < j ==> sb[i] == Shuffle(SbEntry(sg, ToBits(12, i)), Xor(saltbits, mask))
    {
      assert sb[j] == old(sb[..])[j];
      ShuffleCompose(SbEntry(sg, ToBits(12, j)), saltbits, mask);
      sb[j] := Shuffle(sb[j], mask);
    }
  }

  /** The loops of __init_des_r that fill one sb table. */
  method FillSb(sb: array<Long>, sg: nat, eperm: array2<Bits>)
    requires sg < 4 && sb.Length == 4096 && Holds(eperm, EpWires(), 4, 8, 64)
    modifies sb
    ensures Salted(sb[..], sg, Zeros(32))
  {
    hide SbEntry, ToBits, Shuffle, SLookup;
    for j1 := 0 to 64
      invariant forall i :: 0 <= i < 64 * j1 ==> sb[i] == SbEntry(sg, ToBits(12, i))
      invariant Holds(eperm, EpWires(), 4, 8, 64)
    {
      var s1 := SLookup(2 * sg, j1);
      for j2 := 0 to 64
        invariant forall i :: 0 <= i < 64 * j1 + j2 ==> sb[i] == SbEntry(sg, ToBits(12, i))
        invariant Holds(eperm, EpWires(), 4, 8, 64)
      {
        var s2 := SLookup(2 * sg + 1, j2);
        sb[64 * j1 + j2] := LookupEntryOf(eperm, sg, j1, j2, s1, s2);
      }
    }
    forall i | 0 <= i < 4096
      ensures sb[..][i] == Shuffle(SbEntry(sg, ToBits(12, i)), Zeros(32))
    {
      ShuffleZero(SbEntry(sg, ToBits(12, i)));
    }
  }

  method LookupEntryOf(eperm: array2<Bits>, sg: nat, j1: nat, j2: nat, s1: nat, s2: nat) returns (e: Long)
    requires sg < 4 && j1 < 64 && j2 < 64 && s1 == SLookup(2 * sg, j1) && s2 == SLookup(2 * sg + 1, j2)
    requires Holds(eperm, EpWires(), 4, 8, 64)
    ensures e == SbEntry(sg, ToBits(12, 64 * j1 + j2))
  {
    hide SbEntry, ToBits, Entry, EpWires, SLookup, ToPermute, ByteOf;
    assert Pow2(8) == 256;
    var v := ToPermute(sg, s1 * 16 + s2);
    OrIsEntry(sg, j1, j2);
    e := Or(Or(Or(eperm[0, ByteOf(v, 0)], eperm[1, ByteOf(v, 1)]), eperm[2, ByteOf(v, 2)]), eperm[3, ByteOf(v, 3)]);
  }
}
