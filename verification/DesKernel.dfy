/**
 The inner loop of UFC-crypt (glibc-2.27/crypt/crypt.c): sixteen rounds on E-expanded halves,
 looking up twelve bits at a time in tables indexed by byte offset.
 */
module DesKernel {
  import opened Bits
  import opened Feistel

  // ----- the layout of a 48-bit value in a word: four sixteen-bit chunks 0bbbbbbbbbbbb000

  function Chunk(flag: bool, y: Bits): (c: Bits)
    requires |y| == 12
    ensures |c| == 16
  {
    [flag] + y + [false, false, false]
  }

  /** Four chunks; the flags are the 0x8000 bits. */
  function Chunks(x: Bits, flag: bool): (w: Long)
    requires |x| == 48
  {
    Chunk(false, x[..12]) + Chunk(flag, x[12..24]) + Chunk(false, x[24..36]) + Chunk(flag, x[36..])
  }

  /** A 48-bit value as the kernel holds it; every half-word stays within 0x7ff87ff8. */
  function Pack(x: Bits): Long
    requires |x| == 48
  {
    Chunks(x, false)
  }

  /** A round key, whose 0x8000 bits select the second table of each pair. */
  function PackKey(k: Bits): Long
    requires |k| == 48
  {
    Chunks(k, true)
  }

  lemma XorChunk(f: bool, g: bool, x: Bits, y: Bits)
    requires |x| == 12 && |y| == 12
    ensures Xor(Chunk(f, x), Chunk(g, y)) == Chunk(f != g, Xor(x, y))
  {}

  lemma XorChunks(f: bool, g: bool, x: Bits, y: Bits)
    requires |x| == 48 && |y| == 48
    ensures Xor(Chunks(x, f), Chunks(y, g)) == Chunks(Xor(x, y), f != g)
  {
    var z := Xor(x, y);
    assert z[..12] == Xor(x[..12], y[..12]) && z[12..24] == Xor(x[12..24], y[12..24]);
    assert z[24..36] == Xor(x[24..36], y[24..36]) && z[36..] == Xor(x[36..], y[36..]);
    XorChunk(false, false, x[..12], y[..12]);
    XorChunk(f, g, x[12..24], y[12..24]);
    XorChunk(false, false, x[24..36], y[24..36]);
    XorChunk(f, g, x[36..], y[36..]);
    hide Chunk;
    XorFour(Chunk(false, x[..12]), Chunk(f, x[12..24]), Chunk(false, x[24..36]), Chunk(f, x[36..]),
            Chunk(false, y[..12]), Chunk(g, y[12..24]), Chunk(false, y[24..36]), Chunk(g, y[36..]));
  }

  lemma XorFour(a: Bits, b: Bits, c: Bits, d: Bits, a': Bits, b': Bits, c': Bits, d': Bits)
    requires |a| == |a'| && |b| == |b'| && |c| == |c'| && |d| == |d'|
    ensures Xor(a + b + c + d, a' + b' + c' + d') == Xor(a, a') + Xor(b, b') + Xor(c, c') + Xor(d, d')
  {
    XorConcat(a + b + c, d, a' + b' + c', d');
    XorConcat(a + b, c, a' + b', c');
    XorConcat(a, b, a', b');
  }

  /** The byte offset a chunk denotes: a multiple of 8, in the upper half exactly when its flag is set. */
  lemma ChunkValue(flag: bool, y: Bits)
    requires |y| == 12
    ensures Value(Chunk(flag, y)) == (if flag then 0x8000 else 0) + 8 * Value(y)
    ensures Value(y) < 4096
  {
    hide Pow2, Value;
    var x := [flag] + y;
    assert Chunk(flag, y) == x + [false] + [false] + [false];
    ValueShift(x);
    ValueShift(x + [false]);
    ValueShift(x + [false] + [false]);
    ValueFlag(flag, y);
    Pow2Twelve();
  }

  lemma ValueShift(x: Bits)
    ensures Value(x + [false]) == 2 * Value(x)
  {
    assert (x + [false])[..|x|] == x;
  }

  lemma Pow2Twelve()
    ensures Pow2(12) == 4096
  {
    assert Pow2(4) == 16;
    assert Pow2(8) == 256;
  }

  lemma {:induction false} ValueFlag(flag: bool, y: Bits)
    ensures Value([flag] + y) == (if flag then Pow2(|y|) else 0) + Value(y)
  {
    if |y| > 0 {
      assert ([flag] + y)[..|y|] == [flag] + y[..|y| - 1];
      ValueFlag(flag, y[..|y| - 1]);
    } else {
      assert [flag] + y == [flag];
      assert [flag][..0] == [];
    }
  }

  // ----- words within the mask

  function Unpack(w: Long): (x: Bits)
    ensures |x| == 48
  {
    w[1..13] + w[17..29] + w[33..45] + w[49..61]
  }

  /** w has no bit outside the four groups of twelve, except the 0x8000 bits if `flag`. */
  ghost predicate InRange(w: Bits, flag: bool) {
    |w| == 64 && w == Chunks(Unpack(w), flag)
  }

  lemma UnpackChunks(x: Bits, flag: bool)
    requires |x| == 48
    ensures Unpack(Chunks(x, flag)) == x && InRange(Chunks(x, flag), flag)
  {
    var w := Chunks(x, flag);
    assert w[1..13] == x[..12] && w[17..29] == x[12..24] && w[33..45] == x[24..36] && w[49..61] == x[36..];
    assert x == x[..12] + x[12..24] + x[24..36] + x[36..];
  }

  lemma XorInRange(a: Bits, b: Bits, f: bool, g: bool)
    requires InRange(a, f) && InRange(b, g)
    ensures InRange(Xor(a, b), f != g) && Unpack(Xor(a, b)) == Xor(Unpack(a), Unpack(b))
  {
    hide Unpack, Chunks;
    XorChunks(f, g, Unpack(a), Unpack(b));
    UnpackChunks(Xor(Unpack(a), Unpack(b)), f != g);
  }

  /** A word of either kind: a round key, or an entry of a key table that is not filled. */
  ghost predicate Spread(w: Bits) {
    InRange(w, true) || InRange(w, false)
  }

  lemma XorSpread(k: Bits, x: Bits)
    requires Spread(k) && InRange(x, false)
    ensures Spread(Xor(k, x))
  {
    hide InRange;
    if InRange(k, true) {
      XorInRange(k, x, true, false);
    } else {
      XorInRange(k, x, false, false);
    }
  }

  /** The offsets the four chunks of key xor half denote. */
  lemma Offsets(s: Bits, flag: bool)
    requires InRange(s, flag)
    ensures var x, half := Unpack(s), if flag then 0x8000 else 0;
            && Value(s[..16]) == 8 * Value(x[..12]) && Value(s[16..32]) == half + 8 * Value(x[12..24])
            && Value(s[32..48]) == 8 * Value(x[24..36]) && Value(s[48..]) == half + 8 * Value(x[36..])
            && Value(x[..12]) < 4096 && Value(x[12..24]) < 4096 && Value(x[24..36]) < 4096 && Value(x[36..]) < 4096
  {
    hide Unpack, Value, Pow2;
    var x := Unpack(s);
    ChunkValue(false, x[..12]);
    ChunkValue(flag, x[12..24]);
    ChunkValue(false, x[24..36]);
    ChunkValue(flag, x[36..]);
    hide Chunk;
    var a, b, c, d := Chunk(false, x[..12]), Chunk(flag, x[12..24]), Chunk(false, x[24..36]), Chunk(flag, x[36..]);
    assert s == a + b + c + d;
    assert s[..16] == a && s[16..32] == b && s[32..48] == c && s[48..] == d;
  }

  /** All of them are aligned and within the tables. */
  lemma OffsetsFit(s: Bits)
    requires Spread(s)
    ensures |s| == 64 && Value(s[..16]) % 8 == 0 && Value(s[..16]) < 0x10000
    ensures Value(s[16..32]) % 8 == 0 && Value(s[16..32]) < 0x10000
    ensures Value(s[32..48]) % 8 == 0 && Value(s[32..48]) < 0x10000
    ensures Value(s[48..]) % 8 == 0 && Value(s[48..]) < 0x10000
  {
    hide Unpack, Value, Pow2, Chunks;
    if InRange(s, true) {
      Offsets(s, true);
    } else {
      Offsets(s, false);
    }
  }

  // ----- the 64-bit kernel

  /** Two adjacent tables of 4096 entries, read at a byte offset. */
  function Sba(sb: seq<Long>, off: nat): Long
    requires |sb| == 8192 && off % 8 == 0 && off < 0x10000
  {
    sb[off / 8]
  }

  ghost predicate TablesOk(sb: seq<Long>) {
    |sb| == 8192 && forall i :: 0 <= i < 8192 ==> InRange(sb[i], false)
  }

  /** What one round looks up for s = key xor half. */
  ghost function Lookups(sb01: seq<Long>, sb23: seq<Long>, s: Long): (r: Long)
    requires TablesOk(sb01) && TablesOk(sb23) && Spread(s)
    ensures InRange(r, false)
  {
    hide InRange, Unpack, Chunks, Value, Pow2, Spread;
    OffsetsFit(s);
    var a, b, c, d := Sba(sb23, Value(s[48..])), Sba(sb23, Value(s[32..48])), Sba(sb01, Value(s[16..32])),
        Sba(sb01, Value(s[..16]));
    XorInRange(a, b, false, false);
    XorInRange(Xor(a, b), c, false, false);
    XorInRange(Xor(Xor(a, b), c), d, false, false);
    Xor(Xor(Xor(a, b), c), d)
  }

  ghost function LookedUp(sb01: seq<Long>, sb23: seq<Long>, x: Bits, k: Bits): Long
    requires TablesOk(sb01) && TablesOk(sb23) && InRange(x, false) && Spread(k)
  {
    XorSpread(k, x);
    Lookups(sb01, sb23, Xor(k, x))
  }

  /** The round function of the kernel, with zeros for halves and keys that never occur. */
  ghost function KernelF(sb01: seq<Long>, sb23: seq<Long>): RoundFunction
    requires TablesOk(sb01) && TablesOk(sb23)
  {
    (x: Bits, k: Bits) => if InRange(x, false) && Spread(k) then LookedUp(sb01, sb23, x, k) else Zeros(|x|)
  }

  lemma KernelFKeeps(sb01: seq<Long>, sb23: seq<Long>)
    requires TablesOk(sb01) && TablesOk(sb23)
    ensures Keeps(KernelF(sb01, sb23), 64)
  {
    hide LookedUp, Spread, Chunks, Unpack;
  }

  function Low(w: Bits, n: nat): Bits
    requires n <= |w|
  {
    w[|w| - n..]
  }

  lemma LowShr(w: Bits, k: nat, n: nat)
    requires k + n <= |w|
    ensures Low(Shr(w, k), n) == w[|w| - k - n..|w| - k]
  {}

  /** The masked and shifted pieces of s the code takes are its four chunks. */
  lemma Pieces(s: Long)
    ensures Low(s, 16) == s[48..] && Low(Shr(s, 16), 16) == s[32..48] && Low(Shr(s, 32), 16) == s[16..32]
    ensures Value(Shr(s, 48)) == Value(s[..16])
  {
    ValueZeros(48, s[..16]);
  }

  lemma {:induction false} ValueZeros(n: nat, a: Bits)
    ensures Value(Zeros(n) + a) == Value(a)
    decreases |a|, n
  {
    if |a| > 0 {
      assert (Zeros(n) + a)[..n + |a| - 1] == Zeros(n) + a[..|a| - 1];
      ValueZeros(n, a[..|a| - 1]);
    } else if n > 0 {
      assert (Zeros(n) + a)[..n - 1] == Zeros(n - 1) + a;
      ValueZeros(n - 1, a);
    }
  }

  /** One round of the 64-bit kernel: four lookups exclusive-ored onto the other half. */
  method Round64(sb01: seq<Long>, sb23: seq<Long>, k: Long, l0: Long, r: Long) returns (l: Long)
    requires TablesOk(sb01) && TablesOk(sb23) && Spread(k) && InRange(r, false) && InRange(l0, false)
    ensures l == Xor(l0, KernelF(sb01, sb23)(r, k)) && InRange(l, false)
  {
    hide InRange, Value, Unpack, Xor, Shr, Low, Pow2, Spread;
    XorSpread(k, r);
    var s := Xor(k, r);
    OffsetsFit(s);
    Pieces(s);
    var a, b := Sba(sb23, Value(Low(s, 16))), Sba(sb23, Value(Low(Shr(s, 16), 16)));
    var c, d := Sba(sb01, Value(Low(Shr(s, 32), 16))), Sba(sb01, Value(Shr(s, 48)));
    l := Xor(Xor(Xor(Xor(l0, a), b), c), d);
    XorAssoc(l0, a, b, c, d);
    XorInRange(l0, Lookups(sb01, sb23, s), false, false);
  }

  lemma XorAssoc(l: Bits, a: Bits, b: Bits, c: Bits, d: Bits)
    requires |l| == |a| == |b| == |c| == |d|
    ensures Xor(Xor(Xor(Xor(l, a), b), c), d) == Xor(l, Xor(Xor(Xor(a, b), c), d))
    ensures Xor(Xor(Xor(Xor(l, c), d), a), b) == Xor(l, Xor(Xor(Xor(a, b), c), d))
  {}

  ghost predicate KeysOk(keys: seq<Long>) {
    |keys| == 16 && forall i :: 0 <= i < 16 ==> Spread(keys[i])
  }

  lemma TwoRounds(f: RoundFunction, x: Halves, keys: seq<Bits>, n: nat, i: nat)
    requires Keeps(f, n) && x.Is(n) && i + 2 <= |keys|
    ensures var m := Rounds(f, x, keys[..i], n);
            var l := Xor(m.l, f(m.r, keys[i]));
            Rounds(f, x, keys[..i + 2], n) == Halves(l, Xor(m.r, f(l, keys[i + 1])))
  {
    hide Rounds;
    OneRound(f, x, keys, n, i);
    OneRound(f, x, keys, n, i + 1);
  }

  lemma OneRound(f: RoundFunction, x: Halves, keys: seq<Bits>, n: nat, i: nat)
    requires Keeps(f, n) && x.Is(n) && i < |keys|
    ensures var m := Rounds(f, x, keys[..i], n);
            Rounds(f, x, keys[..i + 1], n) == Halves(m.r, Xor(m.l, f(m.r, keys[i])))
  {
    hide Rounds;
    assert keys[..i + 1] == keys[..i] + [keys[i]];
    RoundsConcat(f, x, keys[..i], [keys[i]], n);
    RoundsOne(f, Rounds(f, x, keys[..i], n), keys[i], n);
  }

  /** _ufc_doit_r, 64-bit version. */
  method Doit64(itr: nat, sb01: seq<Long>, sb23: seq<Long>, keys: seq<Long>, l0: Long, r0: Long)
    returns (l: Long, r: Long)
    requires TablesOk(sb01) && TablesOk(sb23) && KeysOk(keys) && InRange(l0, false) && InRange(r0, false)
    ensures Keeps(KernelF(sb01, sb23), 64)
    ensures Halves(l, r) == Iterate(KernelF(sb01, sb23), keys, itr, Halves(l0, r0), 64)
    ensures InRange(l, false) && InRange(r, false)
  {
    hide InRange, Spread, KernelF;
    KernelFKeeps(sb01, sb23);
    ghost var f := KernelF(sb01, sb23);
    l, r := l0, r0;
    for n := 0 to itr
      invariant InRange(l, false) && InRange(r, false)
      invariant Halves(l, r) == Iterate(f, keys, n, Halves(l0, r0), 64)
    {
      l, r := Sixteen64(sb01, sb23, keys, l, r);
      IterateLast(f, keys, n, Halves(l0, r0), 64);
    }
  }

  method Sixteen64(sb01: seq<Long>, sb23: seq<Long>, keys: seq<Long>, l0: Long, r0: Long) returns (l: Long, r: Long)
    requires TablesOk(sb01) && TablesOk(sb23) && KeysOk(keys) && InRange(l0, false) && InRange(r0, false)
    ensures Keeps(KernelF(sb01, sb23), 64)
    ensures Halves(l, r) == Run(KernelF(sb01, sb23), keys, Halves(l0, r0), 64)
    ensures InRange(l, false) && InRange(r, false)
  {
    hide InRange, Spread, KernelF;
    KernelFKeeps(sb01, sb23);
    ghost var f := KernelF(sb01, sb23);
    l, r := l0, r0;
    for i := 0 to 8
      invariant InRange(l, false) && InRange(r, false)
      invariant Halves(l, r) == Rounds(f, Halves(l0, r0), keys[..2 * i], 64)
    {
      TwoRounds(f, Halves(l0, r0), keys, 64, 2 * i);
      l := Round64(sb01, sb23, keys[2 * i], l, r);
      r := Round64(sb01, sb23, keys[2 * i + 1], r, l);
    }
    assert keys[..16] == keys;
    l, r := r, l;
  }

  // ----- the 32-bit kernel

  function Join(hi: Word, lo: Word): Long {
    var h: Bits := hi;
    h + lo
  }

  lemma XorJoin(a: Word, b: Word, c: Word, d: Word)
    ensures Xor(Join(a, b), Join(c, d)) == Join(Xor(a, c), Xor(b, d))
  {}

  /** 32-bit words joined in pairs. */
  function Pair(ws: seq<Word>): (r: seq<Long>)
    ensures |r| == |ws| / 2 && forall i :: 0 <= i < |r| ==> r[i] == Join(ws[2 * i], ws[2 * i + 1])
  {
    seq(|ws| / 2, i requires 0 <= i < |ws| / 2 => Join(ws[2 * i], ws[2 * i + 1]))
  }

  function Sba32(sb: seq<Word>, off: nat): Word
    requires |sb| == 16384 && off % 4 == 0 && off < 0x10000
  {
    sb[off / 4]
  }

  lemma Pieces32(s1: Word, s2: Word)
    ensures var s := Join(s1, s2);
            && Low(s1, 16) == s[16..32] && Value(Shr(s1, 16)) == Value(s[..16])
            && Low(s2, 16) == s[48..] && Value(Shr(s2, 16)) == Value(s[32..48])
  {
    var s := Join(s1, s2);
    ValueZeros(16, s1[..16]);
    ValueZeros(16, s2[..16]);
    assert s1[..16] == s[..16] && s2[..16] == s[32..48] && s1[16..] == s[16..32] && s2[16..] == s[48..];
    hide Value;
  }

  lemma PairAt(sb: seq<Word>, off: nat)
    requires |sb| == 16384 && off % 8 == 0 && off < 0x10000
    ensures off % 4 == 0 && (off + 4) % 4 == 0 && off + 4 < 0x10000 && |Pair(sb)| == 8192
    ensures Sba(Pair(sb), off) == Join(Sba32(sb, off), Sba32(sb, off + 4))
  {
    hide Join;
    EightFours(off);
    assert |Pair(sb)| == 8192;
  }

  lemma EightFours(off: nat)
    requires off % 8 == 0 && off < 0x10000
    ensures off % 4 == 0 && (off + 4) % 4 == 0 && off + 4 < 0x10000
    ensures off / 4 == 2 * (off / 8) && (off + 4) / 4 == 2 * (off / 8) + 1
  {
    var q := off / 8;
    assert off == 8 * q;
  }

  /** One round of the 32-bit kernel: the same eight words, looked up one by one. */
  method Round32(sb01: seq<Word>, sb23: seq<Word>, k1: Word, k2: Word, a1: Word, a2: Word, r1: Word, r2: Word)
    returns (l1: Word, l2: Word)
    requires |sb01| == 16384 && |sb23| == 16384 && TablesOk(Pair(sb01)) && TablesOk(Pair(sb23))
    requires Spread(Join(k1, k2)) && InRange(Join(r1, r2), false) && InRange(Join(a1, a2), false)
    ensures Join(l1, l2) == Xor(Join(a1, a2), KernelF(Pair(sb01), Pair(sb23))(Join(r1, r2), Join(k1, k2))) &&
      InRange(Join(l1, l2), false)
  {
    hide InRange, Value, Unpack, Xor, Shr, Low, Pow2, Sba, Sba32, Join, Spread;
    XorSpread(Join(k1, k2), Join(r1, r2));
    XorJoin(k1, k2, r1, r2);
    var s1, s2 := Xor(k1, r1), Xor(k2, r2);
    OffsetsFit(Join(s1, s2));
    Pieces32(s1, s2);
    l1, l2 := Step32(sb01, Value(Low(s1, 16)), a1, a2);
    l1, l2 := Step32(sb01, Value(Shr(s1, 16)), l1, l2);
    l1, l2 := Step32(sb23, Value(Low(s2, 16)), l1, l2);
    l1, l2 := Step32(sb23, Value(Shr(s2, 16)), l1, l2);
    ghost var p, q, s := Pair(sb01), Pair(sb23), Join(s1, s2);
    XorAssoc(Join(a1, a2), Sba(q, Value(s[48..])), Sba(q, Value(s[32..48])), Sba(p, Value(s[16..32])),
        Sba(p, Value(s[..16])));
    XorInRange(Join(a1, a2), Lookups(p, q, s), false, false);
  }

  /** Two words at offset off and off + 4. */
  method Step32(sb: seq<Word>, off: nat, a1: Word, a2: Word) returns (l1: Word, l2: Word)
    requires |sb| == 16384 && off % 8 == 0 && off < 0x10000
    ensures Join(l1, l2) == Xor(Join(a1, a2), Sba(Pair(sb), off))
  {
    hide Join, Xor, Sba, Sba32, Pair;
    PairAt(sb, off);
    l1, l2 := Xor(a1, Sba32(sb, off)), Xor(a2, Sba32(sb, off + 4));
    XorJoin(a1, a2, Sba32(sb, off), Sba32(sb, off + 4));
  }

  method Sixteen32(sb01: seq<Word>, sb23: seq<Word>, keys: seq<Word>, a1: Word, a2: Word, b1: Word, b2: Word)
    returns (l1: Word, l2: Word, r1: Word, r2: Word)
    requires |sb01| == 16384 && |sb23| == 16384 && TablesOk(Pair(sb01)) && TablesOk(Pair(sb23))
    requires |keys| == 32 && KeysOk(Pair(keys)) && InRange(Join(a1, a2), false) && InRange(Join(b1, b2), false)
    ensures Keeps(KernelF(Pair(sb01), Pair(sb23)), 64)
    ensures Halves(Join(l1, l2), Join(r1, r2))
      == Run(KernelF(Pair(sb01), Pair(sb23)), Pair(keys), Halves(Join(a1, a2), Join(b1, b2)), 64)
    ensures InRange(Join(l1, l2), false) && InRange(Join(r1, r2), false)
  {
    hide InRange, Spread, KernelF, Join, TablesOk, Pair;
    KernelFKeeps(Pair(sb01), Pair(sb23));
    ghost var f, ks := KernelF(Pair(sb01), Pair(sb23)), Pair(keys);
    l1, l2, r1, r2 := a1, a2, b1, b2;
    assert Rounds(f, Halves(Join(a1, a2), Join(b1, b2)), ks[..0], 64) == Halves(Join(a1, a2), Join(b1, b2));
    hide Rounds, Keeps;
    for i := 0 to 8
      invariant InRange(Join(l1, l2), false) && InRange(Join(r1, r2), false)
      invariant Halves(Join(l1, l2), Join(r1, r2)) == Rounds(f, Halves(Join(a1, a2), Join(b1, b2)), ks[..2 * i], 64)
    {
      TwoRounds(f, Halves(Join(a1, a2), Join(b1, b2)), ks, 64, 2 * i);
      assert ks[2 * i] == Join(keys[4 * i], keys[4 * i + 1]) && ks[2 * i + 1] == Join(keys[4 * i + 2], keys[4 * i + 3]);
      l1, l2 := Round32(sb01, sb23, keys[4 * i], keys[4 * i + 1], l1, l2, r1, r2);
      r1, r2 := Round32(sb01, sb23, keys[4 * i + 2], keys[4 * i + 3], r1, r2, l1, l2);
    }
    assert ks[..16] == ks;
    l1, l2, r1, r2 := r1, r2, l1, l2;
  }

  /**
   _ufc_doit_r, 32-bit version: on the same tables and keys, word by word, it meets the contract of
   the 64-bit version.
   */
  method Doit32(itr: nat, sb01: seq<Word>, sb23: seq<Word>, keys: seq<Word>, a1: Word, a2: Word, b1: Word, b2: Word)
    returns (l1: Word, l2: Word, r1: Word, r2: Word)
    requires |sb01| == 16384 && |sb23| == 16384 && TablesOk(Pair(sb01)) && TablesOk(Pair(sb23))
    requires |keys| == 32 && KeysOk(Pair(keys)) && InRange(Join(a1, a2), false) && InRange(Join(b1, b2), false)
    ensures Keeps(KernelF(Pair(sb01), Pair(sb23)), 64)
    ensures Halves(Join(l1, l2), Join(r1, r2))
      == Iterate(KernelF(Pair(sb01), Pair(sb23)), Pair(keys), itr, Halves(Join(a1, a2), Join(b1, b2)), 64)
    ensures InRange(Join(l1, l2), false) && InRange(Join(r1, r2), false)
  {
    hide InRange, Spread, KernelF;
    KernelFKeeps(Pair(sb01), Pair(sb23));
    ghost var f, ks := KernelF(Pair(sb01), Pair(sb23)), Pair(keys);
    l1, l2, r1, r2 := a1, a2, b1, b2;
    for n := 0 to itr
      invariant InRange(Join(l1, l2), false) && InRange(Join(r1, r2), false)
      invariant Halves(Join(l1, l2), Join(r1, r2)) == Iterate(f, ks, n, Halves(Join(a1, a2), Join(b1, b2)), 64)
    {
      l1, l2, r1, r2 := Sixteen32(sb01, sb23, keys, l1, l2, r1, r2);
      IterateLast(f, ks, n, Halves(Join(a1, a2), Join(b1, b2)), 64);
    }
  }

  /** Both versions on the same tables, keys and halves give the same result, for every iteration count. */
  method KernelsAgree(itr: nat, sb01: seq<Word>, sb23: seq<Word>, keys: seq<Word>, a1: Word, a2: Word, b1: Word,
      b2: Word)
    returns (small: (Word, Word, Word, Word), large: (Long, Long))
    requires |sb01| == 16384 && |sb23| == 16384 && TablesOk(Pair(sb01)) && TablesOk(Pair(sb23))
    requires |keys| == 32 && KeysOk(Pair(keys)) && InRange(Join(a1, a2), false) && InRange(Join(b1, b2), false)
    ensures large == (Join(small.0, small.1), Join(small.2, small.3))
  {
    hide InRange, KernelF, TablesOk, KeysOk, Iterate;
    var l1, l2, r1, r2 := Doit32(itr, sb01, sb23, keys, a1, a2, b1, b2);
    var l, r := Doit64(itr, Pair(sb01), Pair(sb23), Pair(keys), Join(a1, a2), Join(b1, b2));
    small, large := (l1, l2, r1, r2), (l, r);
  }

  /** The kernel followed by the kernel on reversed keys is the identity, for any tables and any iteration count. */
  method KernelUndo(itr: nat, sb01: seq<Long>, sb23: seq<Long>, keys: seq<Long>, back: seq<Long>, l0: Long, r0: Long)
    returns (l: Long, r: Long)
    requires TablesOk(sb01) && TablesOk(sb23) && KeysOk(keys) && back == Reverse(keys) && InRange(l0, false) &&
      InRange(r0, false)
    ensures l == l0 && r == r0
  {
    hide InRange, KernelF, Iterate;
    KernelFKeeps(sb01, sb23);
    l, r := Doit64(itr, sb01, sb23, keys, l0, r0);
    l, r := Doit64(itr, sb01, sb23, back, l, r);
    IterateUndo(KernelF(sb01, sb23), keys, itr, Halves(l0, r0), 64);
  }
}
