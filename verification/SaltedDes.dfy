/**
 What a salt does to the cipher: "the only crypt change to DES" is that entries of the expansion
 table are exchanged (glibc-2.27/crypt/crypt_util.c, _ufc_setup_salt_r).  The kernel on shuffled
 sb tables carries out the rounds of the standard with its expansion so changed.
 */
module SaltedDes {
  import opened Bits
  import opened Feistel
  import opened DesSpec
  import opened DesKernel
  import opened DesRefinement
  import opened UfcTables
  import opened UfcSalt

  // ----- the salted expansion

  /** Bits i and i + 24 exchanged where the salt has the mask bit of i. */
  function Exchange(x: Bits, s: Word): (y: Bits)
    requires |x| == 48
    ensures |y| == 48
    ensures forall i :: 0 <= i < 24 ==> y[i] == if s[EPos(i)] then x[24 + i] else x[i]
    ensures forall i :: 0 <= i < 24 ==> y[24 + i] == if s[EPos(i)] then x[i] else x[24 + i]
  {
    seq(24, i requires 0 <= i < 24 => if s[EPos(i)] then x[24 + i] else x[i]) +
    seq(24, i requires 0 <= i < 24 => if s[EPos(i)] then x[i] else x[24 + i])
  }

  function SaltedE(h: Bits, s: Word): (x: Bits)
    requires |h| == 32
    ensures |x| == 48
  {
    Exchange(E(h), s)
  }

  lemma SaltedPair(h: Bits, s: Word, i: nat)
    requires |h| == 32 && i < 24
    ensures SaltedE(h, s)[i] == h[Esel(if s[EPos(i)] then 24 + i else i) - 1]
    ensures SaltedE(h, s)[24 + i] == h[Esel(if s[EPos(i)] then i else 24 + i) - 1]
  {
    hide Esel, EPos, E, Exchange;
  }

  /**
   The table a salt makes of E: its first character exchanges entries j and 24 + j for each of its
   bits j, its second entries 6 + j and 30 + j, and nothing else changes.
   */
  lemma SaltedEntries(h: Bits, s0: char, s1: char, j: nat)
    requires |h| == 32 && GoodForSalt(s0) && GoodForSalt(s1) && j < 6
    ensures var x := SaltedE(h, SaltBits(s0, s1));
            && x[j] == h[Esel(if SaltBit(s0, j) then 24 + j else j) - 1]
            && x[24 + j] == h[Esel(if SaltBit(s0, j) then j else 24 + j) - 1]
            && x[6 + j] == h[Esel(if SaltBit(s1, j) then 30 + j else 6 + j) - 1]
            && x[30 + j] == h[Esel(if SaltBit(s1, j) then 6 + j else 30 + j) - 1]
            && x[12 + j] == h[Esel(12 + j) - 1] && x[36 + j] == h[Esel(36 + j) - 1]
            && x[18 + j] == h[Esel(18 + j) - 1] && x[42 + j] == h[Esel(42 + j) - 1]
  {
    hide SaltBit, GoodForSalt, Esel, SaltedE;
    var s := SaltBits(s0, s1);
    assert s[1 + j] == SaltBit(s0, j) && s[7 + j] == SaltBit(s1, j) && !s[17 + j] && !s[23 + j];
    assert EPos(j) == 1 + j && EPos(6 + j) == 7 + j && EPos(12 + j) == 17 + j && EPos(18 + j) == 23 + j;
    hide EPos, SaltBits;
    SaltedPair(h, s, j);
    SaltedPair(h, s, 6 + j);
    SaltedPair(h, s, 12 + j);
    SaltedPair(h, s, 18 + j);
  }

  function SaltedRound(r: Bits, key: Bits, s: Word): (h: Bits)
    requires |r| == 32 && |key| == 48
    ensures |h| == 32
  {
    P(SBoxes(0, Xor(SaltedE(r, s), key)))
  }

  /** What a round does with an entry of the key table that is not filled. */
  function UnkeyedRound(r: Bits, s: Word): (h: Bits)
    requires |r| == 32
    ensures |h| == 32
  {
    P(Unflagged(SaltedE(r, s)))
  }

  function SaltedStep(r: Bits, key: Bits, s: Word): (h: Bits)
    requires |r| == 32 && IsKey(key)
    ensures |h| == 32
  {
    if |key| == 48 then SaltedRound(r, key, s) else UnkeyedRound(r, s)
  }

  /** f of the standard with the expansion salted; zeros for halves and keys that never occur. */
  function SaltedF(s: Word): RoundFunction {
    (r, key) => if |r| == 32 && IsKey(key) then SaltedStep(r, key, s) else Zeros(|r|)
  }

  lemma SaltedFKeeps(s: Word)
    ensures Keeps(SaltedF(s), 32)
  {
    hide SaltedStep;
  }

  // ----- shuffling a packed value

  lemma PackedPair(x: Bits, s: Word, i: nat)
    requires |x| == 48 && i < 24
    ensures var q, u, v := EPos(i), Shuffle(Pack(x), s), Pack(Exchange(x, s)); u[q] == v[q] && u[32 + q] == v[32 + q]
  {
    hide Pack, Shuffle;
    var y := Exchange(x, s);
    assert EPos(24 + i) == 32 + EPos(i);
    assert y[i] == if s[EPos(i)] then x[24 + i] else x[i];
    assert y[24 + i] == if s[EPos(i)] then x[i] else x[24 + i];
    hide Exchange, EPos;
    ShuffleExchanges(Pack(x), s, EPos(i));
    PackAt(x, i);
    PackAt(x, 24 + i);
    PackAt(y, i);
    PackAt(y, 24 + i);
  }

  /** A position that holds no bit of a packed value. */
  lemma PackedGap(x: Bits, q: nat)
    requires |x| == 48 && q < 64 && !(1 <= q % 16 <= 12)
    ensures !Pack(x)[q]
  {
    hide Pack;
    if Pack(x)[q] {
      var i := PackOnly(x, q);
    }
  }

  lemma PackedAt(x: Bits, s: Word, q: nat)
    requires |x| == 48 && q < 32
    ensures var u, v := Shuffle(Pack(x), s), Pack(Exchange(x, s)); u[q] == v[q] && u[32 + q] == v[32 + q]
  {
    hide Shuffle, Pack, Exchange;
    if 1 <= q % 16 <= 12 {
      assert EPos(12 * (q / 16) + (q % 16 - 1)) == q;
      PackedPair(x, s, 12 * (q / 16) + (q % 16 - 1));
    } else {
      ShuffleExchanges(Pack(x), s, q);
      PackedGap(x, q);
      PackedGap(x, 32 + q);
      PackedGap(Exchange(x, s), q);
      PackedGap(Exchange(x, s), 32 + q);
    }
  }

  /** Shuffling a packed value exchanges its bits. */
  lemma ShufflePack(x: Bits, s: Word)
    requires |x| == 48
    ensures Shuffle(Pack(x), s) == Pack(Exchange(x, s))
  {
    hide Shuffle, Pack, Exchange;
    var u, v := Shuffle(Pack(x), s), Pack(Exchange(x, s));
    forall q | 0 <= q < 64
      ensures u[q] == v[q]
    {
      PackedAt(x, s, if q < 32 then q else q - 32);
    }
  }

  lemma ShuffleXor(a: Long, b: Long, s: Word)
    ensures Xor(Shuffle(a, s), Shuffle(b, s)) == Shuffle(Xor(a, b), s)
  {
    hide Shuffle;
    var u, v := Xor(Shuffle(a, s), Shuffle(b, s)), Shuffle(Xor(a, b), s);
    forall q | 0 <= q < 64
      ensures u[q] == v[q]
    {
      var p := if q < 32 then q else q - 32;
      ShuffleExchanges(a, s, p);
      ShuffleExchanges(b, s, p);
      ShuffleExchanges(Xor(a, b), s, p);
    }
  }

  // ----- the kernel on salted tables

  /** sb is the pair of tables g with every entry shuffled by the salt. */
  ghost predicate SaltedFrom(sb: seq<Long>, g: seq<Long>, s: Word) {
    |sb| == 8192 && |g| == 8192 && forall i :: 0 <= i < 8192 ==> sb[i] == Shuffle(g[i], s)
  }

  lemma SaltedInRange(w: Long, s: Word)
    requires InRange(w, false)
    ensures InRange(Shuffle(w, s), false)
  {
    hide Shuffle, Chunks, Unpack, Exchange;
    ShufflePack(Unpack(w), s);
    UnpackChunks(Exchange(Unpack(w), s), false);
  }

  lemma SaltedOk(sb: seq<Long>, g: seq<Long>, s: Word)
    requires SaltedFrom(sb, g, s) && TablesOk(g)
    ensures TablesOk(sb)
  {
    hide Shuffle, InRange;
    forall i | 0 <= i < 8192
      ensures InRange(sb[i], false)
    {
      SaltedInRange(g[i], s);
    }
  }

  /** Everything a round looks up in the shuffled tables is what it looks up in the initial ones, shuffled. */
  lemma SaltedLookups(sb01: seq<Long>, sb23: seq<Long>, g01: seq<Long>, g23: seq<Long>, x: Long, s: Word)
    requires SaltedFrom(sb01, g01, s) && SaltedFrom(sb23, g23, s) && Spread(x)
    requires TablesOk(sb01) && TablesOk(sb23) && TablesOk(g01) && TablesOk(g23)
    ensures Lookups(sb01, sb23, x) == Shuffle(Lookups(g01, g23, x), s)
  {
    hide Shuffle, InRange, Xor, Value, TablesOk, Pow2, Unpack, Spread;
    OffsetsFit(x);
    var i3, i2, i1, i0 := Value(x[48..]), Value(x[32..48]), Value(x[16..32]), Value(x[..16]);
    var a, b, c, d := Sba(g23, i3), Sba(g23, i2), Sba(g01, i1), Sba(g01, i0);
    assert Sba(sb23, i3) == Shuffle(a, s) && Sba(sb23, i2) == Shuffle(b, s);
    assert Sba(sb01, i1) == Shuffle(c, s) && Sba(sb01, i0) == Shuffle(d, s);
    ShuffleXor(a, b, s);
    ShuffleXor(Xor(a, b), c, s);
    ShuffleXor(Xor(Xor(a, b), c), d, s);
  }

  /** A half as the kernel holds it under a salt. */
  function SaltedExpand(h: Bits, s: Word): Long
    requires |h| == 32
  {
    Shuffle(Expand(h), s)
  }

  lemma SaltedExpandIs(h: Bits, s: Word)
    requires |h| == 32
    ensures SaltedExpand(h, s) == Pack(SaltedE(h, s))
  {
    hide Shuffle, Chunks, Exchange, E;
    ShufflePack(E(h), s);
  }

  lemma SaltedExpandInRange(h: Bits, s: Word)
    requires |h| == 32
    ensures InRange(SaltedExpand(h, s), false)
  {
    hide E, InRange, Chunks, Shuffle;
    UnpackChunks(E(h), false);
    SaltedInRange(Expand(h), s);
  }

  lemma SaltedExpandXor(a: Bits, b: Bits, s: Word)
    requires |a| == 32 && |b| == 32
    ensures Xor(SaltedExpand(a, s), SaltedExpand(b, s)) == SaltedExpand(Xor(a, b), s)
  {
    hide Shuffle, Expand;
    ExpandXor(a, b);
    ShuffleXor(Expand(a), Expand(b), s);
  }

  /** The two pairs of sb tables under the salt s. */
  ghost predicate Tables(sb01: seq<Long>, sb23: seq<Long>, s: Word) {
    exists g01, g23 :: SaltedPairs(sb01, sb23, g01, g23, s)
  }

  ghost predicate SaltedPairs(sb01: seq<Long>, sb23: seq<Long>, g01: seq<Long>, g23: seq<Long>, s: Word) {
    FreshPair(g01, 0) && FreshPair(g23, 2) && SaltedFrom(sb01, g01, s) && SaltedFrom(sb23, g23, s)
  }

  lemma TablesAreOk(sb01: seq<Long>, sb23: seq<Long>, s: Word)
    requires Tables(sb01, sb23, s)
    ensures TablesOk(sb01) && TablesOk(sb23)
  {
    hide FreshPair, SaltedFrom, TablesOk;
    var g01, g23 :| SaltedPairs(sb01, sb23, g01, g23, s);
    FreshOk(g01, 0);
    FreshOk(g23, 2);
    SaltedOk(sb01, g01, s);
    SaltedOk(sb23, g23, s);
  }

  /** One kernel round on halves expanded under the salt is one round of the salted cipher. */
  lemma KernelRound(sb01: seq<Long>, sb23: seq<Long>, r: Bits, k: Bits, s: Word)
    requires Tables(sb01, sb23, s) && TablesOk(sb01) && TablesOk(sb23)
    requires |r| == 32 && IsKey(k)
    ensures KernelF(sb01, sb23)(SaltedExpand(r, s), PackEntry(k)) == SaltedExpand(SaltedStep(r, k, s), s)
  {
    hide Unpack, SaltedE, SBoxes, Unflagged, P, Chunks, FreshPair, SaltedFrom, TablesOk, Lookups, SaltedExpand, InRange,
         Spread;
    var g01, g23 :| SaltedPairs(sb01, sb23, g01, g23, s);
    FreshOk(g01, 0);
    FreshOk(g23, 2);
    SaltedExpandIs(r, s);
    UnpackChunks(SaltedE(r, s), false);
    var flag := |k| == 48;
    if flag {
      UnpackChunks(k, true);
    } else {
      ZeroEntry();
    }
    EntrySpread(k);
    XorInRange(PackEntry(k), SaltedExpand(r, s), flag, false);
    XorSpread(PackEntry(k), SaltedExpand(r, s));
    var x := Xor(PackEntry(k), SaltedExpand(r, s));
    assert Unpack(x) == if flag then Xor(SaltedE(r, s), k) else SaltedE(r, s);
    var h := P(if flag then SBoxes(0, Unpack(x)) else Unflagged(Unpack(x)));
    assert h == SaltedStep(r, k, s);
    assert KernelF(sb01, sb23)(SaltedExpand(r, s), PackEntry(k)) == Lookups(sb01, sb23, x);
    SaltedLookups(sb01, sb23, g01, g23, x, s);
    LookupsAreF(g01, g23, x, flag);
    Folds(h, s);
  }

  lemma Folds(h: Bits, s: Word)
    requires |h| == 32
    ensures Shuffle(Expand(h), s) == SaltedExpand(h, s)
  {
    hide Shuffle, Expand;
  }

  function SaltedHalves(x: Halves, s: Word): Halves
    requires |x.l| == 32 && |x.r| == 32
  {
    Halves(SaltedExpand(x.l, s), SaltedExpand(x.r, s))
  }

  lemma {:induction false} RoundsRefine(sb01: seq<Long>, sb23: seq<Long>, x: Halves, keys: seq<Bits>, s: Word)
    requires Tables(sb01, sb23, s) && TablesOk(sb01) && TablesOk(sb23)
    requires x.Is(32) && forall i :: 0 <= i < |keys| ==> IsKey(keys[i])
    requires Keeps(KernelF(sb01, sb23), 64) && Keeps(SaltedF(s), 32)
    ensures Rounds(KernelF(sb01, sb23), SaltedHalves(x, s), PackKeys(keys), 64)
         == SaltedHalves(Rounds(SaltedF(s), x, keys, 32), s)
    decreases |keys|
  {
    hide Tables, TablesOk, KernelF, SaltedExpand, PackEntry, SaltedStep;
    if |keys| > 0 {
      var f := SaltedStep(x.r, keys[0], s);
      KernelRound(sb01, sb23, x.r, keys[0], s);
      SaltedExpandXor(x.l, f, s);
      assert PackKeys(keys)[1..] == PackKeys(keys[1..]);
      RoundsRefine(sb01, sb23, Halves(x.r, Xor(x.l, f)), keys[1..], s);
    }
  }

  /** Any number of runs of the kernel are as many runs of the salted cipher. */
  lemma {:induction false} RunsRefine(sb01: seq<Long>, sb23: seq<Long>, times: nat, x: Halves, keys: seq<Bits>, s: Word)
    requires Tables(sb01, sb23, s)
    requires x.Is(32) && forall i :: 0 <= i < |keys| ==> IsKey(keys[i])
    ensures TablesOk(sb01) && TablesOk(sb23) && Keeps(KernelF(sb01, sb23), 64) && Keeps(SaltedF(s), 32)
    ensures Iterate(KernelF(sb01, sb23), PackKeys(keys), times, SaltedHalves(x, s), 64)
         == SaltedHalves(Iterate(SaltedF(s), keys, times, x, 32), s)
    decreases times
  {
    hide Tables, TablesOk, KernelF, SaltedF, SaltedExpand, PackEntry;
    TablesAreOk(sb01, sb23, s);
    KernelFKeeps(sb01, sb23);
    SaltedFKeeps(s);
    if times > 0 {
      RoundsRefine(sb01, sb23, x, keys, s);
      RunsRefine(sb01, sb23, times - 1, Run(SaltedF(s), keys, x, 32), keys, s);
    }
  }

  // ----- without a salt

  lemma UnsaltedE(r: Bits)
    requires |r| == 32
    ensures SaltedE(r, Zeros(32)) == E(r)
  {
    hide E, EPos;
    var x, y := SaltedE(r, Zeros(32)), E(r);
    forall i | 0 <= i < 48
      ensures x[i] == y[i]
    {
      if i >= 24 {
        assert x[24 + (i - 24)] == y[24 + (i - 24)];
      }
    }
  }

  lemma UnsaltedF(r: Bits, key: Bits)
    requires |r| == 32 && |key| == 48
    ensures SaltedF(Zeros(32))(r, key) == RoundF(r, key)
  {
    hide P, SBoxes, SaltedE, E, UnkeyedRound;
    UnsaltedE(r);
    var z: Word := Zeros(32);
    assert SaltedF(z)(r, key) == SaltedStep(r, key, z) == SaltedRound(r, key, z);
    assert SaltedRound(r, key, z) == F(r, key) == RoundF(r, key);
  }

  lemma {:induction false} UnsaltedRounds(x: Halves, keys: seq<Bits>)
    requires x.Is(32) && Keeps(SaltedF(Zeros(32)), 32) && Keeps(RoundF, 32)
    requires forall i :: 0 <= i < |keys| ==> |keys[i]| == 48
    ensures Rounds(SaltedF(Zeros(32)), x, keys, 32) == Rounds(RoundF, x, keys, 32)
    decreases |keys|
  {
    hide SaltedF, RoundF;
    if |keys| > 0 {
      UnsaltedF(x.r, keys[0]);
      UnsaltedRounds(Halves(x.r, Xor(x.l, RoundF(x.r, keys[0]))), keys[1..]);
    }
  }

  /** The salt of no bits leaves the standard. */
  lemma UnsaltedCipher(keys: seq<Bits>, block: Bits)
    requires |block| == 64 && forall i :: 0 <= i < |keys| ==> |keys[i]| == 48
    ensures Keeps(SaltedF(Zeros(32)), 32)
    ensures CipherWith(SaltedF(Zeros(32)), keys, block) == Cipher(keys, block)
  {
    hide SaltedF, RoundF, Split, Merge;
    SaltedFKeeps(Zeros(32));
    RoundFKeeps();
    UnsaltedRounds(Split(block), keys);
  }

  // ----- without a key

  /** A key table that is not filled. */
  function NoKeys(): (keys: seq<Bits>)
    ensures |keys| == 16 && forall i :: 0 <= i < 16 ==> keys[i] == []
  {
    seq(16, _ => [])
  }

  /** Without a key, enciphering and deciphering are the same, and each undoes itself. */
  lemma UnkeyedTwice(s: Word, block: Bits)
    requires |block| == 64
    ensures Reverse(NoKeys()) == NoKeys() && Keeps(SaltedF(s), 32)
    ensures CipherWith(SaltedF(s), NoKeys(), CipherWith(SaltedF(s), NoKeys(), block)) == block
  {
    hide SaltedF, CipherWith;
    SaltedFKeeps(s);
    assert Reverse(NoKeys()) == NoKeys();
    CipherUndo(SaltedF(s), NoKeys(), block);
  }
}
