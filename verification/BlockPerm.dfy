/**
 The ends of encrypt (glibc-2.27/crypt/crypt_util.c): the loops that permute and expand the input
 block, and _ufc_dofinalperm_r, which undoes the expansion.
 */
module BlockPerm {
  import opened Bits
  import opened DesSpec
  import opened UfcData
  import opened DesKernel
  import opened DesRefinement
  import opened Wires
  import opened UfcTables
  import opened UfcSalt
  import opened UfcSetup

  /** The block as bits: one byte per bit, any non-zero byte counting as 1. */
  function BlockBits(block: seq<int>): (b: Bits)
    requires |block| == 64
    ensures |b| == 64 && forall i :: 0 <= i < 64 ==> b[i] == (block[i] != 0)
  {
    seq(64, i requires 0 <= i < 64 => block[i] != 0)
  }

  // ----- the initial permutation and expansion

  /** The two loops that load one half: bits 0..23 into the first word, 24..47 into the second. */
  method LoadHalf(block: seq<int>, h: nat) returns (w1: Word, w2: Word)
    requires |block| == 64 && h < 2
    ensures Join(w1, w2) == Expand(Ip(BlockBits(block))[32 * h..32 * h + 32])
  {
    ghost var half := Ip(BlockBits(block))[32 * h..32 * h + 32];
    ghost var x := E(half);
    w1 := LoadWord(block, h, 0, x);
    w2 := LoadWord(block, h, 1, x);
    hide Pack, E, Ip;
    assert Join(w1, w2) == Pack(x);
  }

  method LoadWord(block: seq<int>, h: nat, part: nat, ghost x: Bits) returns (w: Word)
    requires |block| == 64 && h < 2 && part < 2
    requires x == E(Ip(BlockBits(block))[32 * h..32 * h + 32])
    ensures w == Pack(x)[32 * part..32 * part + 32]
  {
    hide Pack, E, Ip, InitialPerm, Esel, EPos, InitialPermEntry, EselEntry;
    w := Zeros(32);
    for i := 0 to 24
      invariant forall b :: 0 <= b < 24 ==> w[EPos(b)] == (b < i && x[24 * part + b])
      invariant forall q :: 0 <= q < 32 && w[q] ==> exists b :: 0 <= b < 24 && EPos(b) == q
    {
      var e := EselEntry(24 * part + i) - 1;
      assert x[24 * part + i] == (block[InitialPerm(e + 32 * h) - 1] != 0);
      forall b | 0 <= b < 24 && EPos(b) == EPos(i) ensures b == i { EPosInjective(b, i); }
      if block[InitialPermEntry(e + 32 * h) - 1] != 0 {
        w := w[EPos(i) := true];
      }
    }
    forall q | 0 <= q < 32
      ensures w[q] == Pack(x)[32 * part + q]
    {
      LoadedBit(x, part, w, q);
    }
  }

  lemma LoadedBit(x: Bits, part: nat, w: Word, q: nat)
    requires |x| == 48 && part < 2 && q < 32
    requires forall b :: 0 <= b < 24 ==> w[EPos(b)] == x[24 * part + b]
    requires w[q] ==> exists b :: 0 <= b < 24 && EPos(b) == q
    ensures w[q] == Pack(x)[32 * part + q]
  {
    hide Pack, EPos;
    if w[q] {
      var b :| 0 <= b < 24 && EPos(b) == q;
      EPosHalf(part, b);
      PackAt(x, 24 * part + b);
    }
    if Pack(x)[32 * part + q] {
      var i := PackOnly(x, 32 * part + q);
      var b := i - 24 * part;
      EPosHalf(part, b);
    }
  }

  // ----- _ufc_dofinalperm_r

  /** The four groups of six bits in a word, by the shifts of the code. */
  lemma WordGroups(a: Bits, b: Bits, w: Word)
    requires |a| == 12 && |b| == 12 && w == Chunk(false, a) + Chunk(false, b)
    ensures var v := Shr(w, 3);
            && Low(v, 6) == b[6..] && Low(Shr(v, 6), 6) == b[..6]
            && Low(Shr(Shr(v, 6), 10), 6) == a[6..] && Low(Shr(Shr(Shr(v, 6), 10), 6), 6) == a[..6]
  {
    ShrShr(w, 3, 6);
    ShrShr(w, 9, 10);
    ShrShr(w, 19, 6);
    LowShr(w, 3, 6);
    LowShr(w, 9, 6);
    LowShr(w, 19, 6);
    LowShr(w, 25, 6);
    hide Shr, Low;
    var c, d := Chunk(false, a), Chunk(false, b);
    assert w[23..29] == d[7..13] && w[17..23] == d[1..7] && w[7..13] == c[7..13] && w[1..7] == c[1..7];
  }

  lemma ShrShr(w: Bits, j: nat, k: nat)
    requires j + k <= |w|
    ensures Shr(Shr(w, j), k) == Shr(w, j + k)
  {}

  method Groups(w: Word, ghost a: Bits, ghost b: Bits) returns (gs: seq<Bits>)
    requires |a| == 12 && |b| == 12 && w == Chunk(false, a) + Chunk(false, b)
    ensures gs == [a[..6], a[6..], b[..6], b[6..]]
  {
    WordGroups(a, b, w);
    hide Shr, Low;
    var v := Shr(w, 3);
    var g3 := Low(v, 6);
    v := Shr(v, 6);
    var g2 := Low(v, 6);
    v := Shr(v, 10);
    var g1 := Low(v, 6);
    v := Shr(v, 6);
    gs := [Low(v, 6), g1, g2, g3];
  }

  /** Exchange the salted bits back. */
  method Unsalt(w1: Word, w2: Word, saltbits: Word) returns (u1: Word, u2: Word)
    ensures Join(u1, u2) == Shuffle(Join(w1, w2), saltbits)
  {
    var x := And(Xor(w1, w2), saltbits);
    u1, u2 := Xor(w1, x), Xor(w2, x);
    hide Shuffle;
    var a, b := Join(u1, u2), Shuffle(Join(w1, w2), saltbits);
    forall q | 0 <= q < 64
      ensures a[q] == b[q]
    {
      ShuffleExchanges(Join(w1, w2), saltbits, if q < 32 then q else q - 32);
    }
  }

  /** _ufc_dofinalperm_r: halves expanded under the salt give the final permutation of the halves themselves. */
  method FinalPermutation(tables: SmallTables, w: seq<Word>, saltbits: Word, ghost l: Bits, ghost r: Bits)
    returns (v: Long)
    requires tables.Valid() && |w| == 4 && |l| == 32 && |r| == 32
    requires Join(w[0], w[1]) == Shuffle(Expand(l), saltbits) && Join(w[2], w[3]) == Shuffle(Expand(r), saltbits)
    ensures v == Fp(l + r)
  {
    hide Shuffle, Pack, E, Fp, SmallTables.Valid;
    var l1, l2 := Unsalt(w[0], w[1], saltbits);
    var r1, r2 := Unsalt(w[2], w[3], saltbits);
    UnsaltUndoes(Expand(l), saltbits);
    UnsaltUndoes(Expand(r), saltbits);
    var g := GroupsOf(l1, l2, E(l));
    var h := GroupsOf(r1, r2, E(r));
    v := LookupGroups(tables, g + h, l, r);
  }

  lemma UnsaltUndoes(k: Long, s: Word)
    ensures Shuffle(Shuffle(k, s), s) == k
  {
    hide Shuffle;
    ShuffleCompose(k, s, s);
    assert Xor(s, s) == Zeros(32);
    ShuffleZero(k);
  }

  method GroupsOf(w1: Word, w2: Word, ghost x: Bits) returns (gs: seq<Bits>)
    requires |x| == 48 && Join(w1, w2) == Pack(x)
    ensures |gs| == 8 && forall p :: 0 <= p < 8 ==> gs[p] == x[6 * p..6 * p + 6]
  {
    PackWords(x, w1, w2);
    hide Pack, Chunk;
    var a := Groups(w1, x[..12], x[12..24]);
    var b := Groups(w2, x[24..36], x[36..]);
    gs := a + b;
    EightGroups(x, gs);
  }

  lemma EightGroups(x: Bits, gs: seq<Bits>)
    requires |x| == 48
    requires gs == [x[..12][..6], x[..12][6..], x[12..24][..6], x[12..24][6..]] +
      [x[24..36][..6], x[24..36][6..], x[36..][..6], x[36..][6..]]
    ensures |gs| == 8 && forall p :: 0 <= p < 8 ==> gs[p] == x[6 * p..6 * p + 6]
  {
    assert gs[0] == x[0..6] && gs[1] == x[6..12] && gs[2] == x[12..18] && gs[3] == x[18..24];
    assert gs[4] == x[24..30] && gs[5] == x[30..36] && gs[6] == x[36..42] && gs[7] == x[42..48];
  }

  lemma PackWords(x: Bits, w1: Word, w2: Word)
    requires |x| == 48 && Join(w1, w2) == Pack(x)
    ensures w1 == Chunk(false, x[..12]) + Chunk(false, x[12..24]) &&
      w2 == Chunk(false, x[24..36]) + Chunk(false, x[36..])
  {
    hide Chunk;
    var a, b, c, d := Chunk(false, x[..12]), Chunk(false, x[12..24]), Chunk(false, x[24..36]), Chunk(false, x[36..]);
    assert Pack(x) == (a + b) + (c + d);
    assert w1 == Join(w1, w2)[..32] && w2 == Join(w1, w2)[32..];
  }

  method LookupGroups(tables: SmallTables, gs: seq<Bits>, ghost l: Bits, ghost r: Bits) returns (v: Long)
    requires tables.Valid() && |l| == 32 && |r| == 32
    requires |gs| == 16 && (forall p :: 0 <= p < 8 ==> gs[p] == E(l)[6 * p..6 * p + 6])
    requires forall p :: 0 <= p < 8 ==> gs[8 + p] == E(r)[6 * p..6 * p + 6]
    ensures v == Fp(l + r)
  {
    ghost var ws, x := EfpWires(tables.inv), E(l) + E(r);
    hide E, Fp, Entry, EfpWires, Pow2, Value, InvertsE, Places, Sextets;
    assert Holds(tables.efp, ws, 16, 6, 64);
    hide Holds;
    forall p | 0 <= p < 16
      ensures gs[p] == Sextets(x)[p]
    {
      if p >= 8 {
        assert gs[8 + (p - 8)] == E(r)[6 * (p - 8)..6 * (p - 8) + 6];
      }
    }
    assert gs == Sextets(x);
    v := OrGroups(tables.efp, gs, ws);
    EfpGather(tables.inv, l, r);
  }

  method OrGroups(efp: array2<Bits>, gs: seq<Bits>, ghost ws: seq<Wire>) returns (v: Long)
    requires Holds(efp, ws, 16, 6, 64) && |gs| == 16 && forall p :: 0 <= p < 16 ==> |gs[p]| == 6
    ensures v == Gather(ws, gs, 6, 64)
  {
    hide Entry, Pow2, Value;
    v := Zeros(64);
    for p := 0 to 16
      invariant v == Gather(ws, gs[..p], 6, 64)
    {
      assert gs[..p + 1][..p] == gs[..p];
      LookupEntry(efp, ws, 16, 6, 64, p, gs[p]);
      v := Or(v, efp[p, Value(gs[p])]);
    }
    assert gs[..16] == gs;
  }
}
