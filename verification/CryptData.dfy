/**
 struct crypt_data and the operations on it (glibc-2.27/crypt/crypt_util.c): salts, setkey and
 encrypt, in the 64-bit build.
 */
module CryptData {
  import opened Bits
  import opened Feistel
  import opened DesSpec
  import opened DesKernel
  import opened DesRefinement
  import opened Wires
  import opened UfcTables
  import opened UfcSalt
  import opened SaltedDes
  import opened UfcSetup
  import opened KeyTab
  import opened BlockPerm
  import opened CryptKeys
  import opened CryptText
  import opened Optional

  datatype Salt = NoSalt | TwoChars(s0: char, s1: char)

  ghost predicate GoodSalt(s: Salt) {
    s.TwoChars? ==> GoodForSalt(s.s0) && GoodForSalt(s.s1)
  }

  ghost function BitsOf(s: Salt): Word
    requires GoodSalt(s)
  {
    if s.NoSalt? then Zeros(32) else SaltBits(s.s0, s.s1)
  }

  predicate Accepted(s0: char, s1: char) {
    GoodForSalt(s0) && GoodForSalt(s1)
  }

  class CryptData {
    const tables: SmallTables
    const keysched: array<Long>
    const sb0: array<Long>
    const sb1: array<Long>
    const sb2: array<Long>
    const sb3: array<Long>
    var salt: Salt              // current_salt, NoSalt for two NUL bytes
    var saltbits: Word          // current_saltbits
    var direction: int
    var initialized: nat
    ghost var keys: seq<Bits>   // the round keys in the key table, forward

    ghost predicate Shape()
      reads this, tables.pc1a, tables.pc1b, tables.pc2a, tables.pc2b, tables.eperm, tables.efp
    {
      && tables.Valid() && keysched.Length == 16
      && sb0.Length == 4096 && sb1.Length == 4096 && sb2.Length == 4096 && sb3.Length == 4096
      && sb0 != sb1 && sb0 != sb2 && sb0 != sb3 && sb1 != sb2 && sb1 != sb3 && sb2 != sb3
      && keysched != sb0 && keysched != sb1 && keysched != sb2 && keysched != sb3
    }

    /** The sb tables are the initial ones shuffled by the current salt alone. */
    ghost predicate TablesSalted(saltbits: Word)
      reads sb0, sb1, sb2, sb3
    {
      Salted(sb0[..], 0, saltbits) && Salted(sb1[..], 1, saltbits) && Salted(sb2[..], 2, saltbits) &&
          Salted(sb3[..], 3, saltbits)
    }

    /** The key table holds the keys, in order exactly when the last operation enciphered. */
    ghost predicate Keyed()
      reads this`direction, this`keys, keysched
    {
      && |keys| == 16 && (forall i :: 0 <= i < 16 ==> IsKey(keys[i]))
      && keysched[..] == PackKeys(Ordered(keys, direction))
    }

    ghost predicate Valid()
      reads this, keysched, sb0, sb1, sb2, sb3
      reads tables.pc1a, tables.pc1b, tables.pc2a, tables.pc2b, tables.eperm, tables.efp
    {
      && Shape() && Keyed() && GoodSalt(salt)
      && (initialized == 0 ==> salt == NoSalt)
      && (initialized > 0 ==> saltbits == BitsOf(salt) && TablesSalted(saltbits))
    }

    /** A zeroed structure. */
    constructor (tables: SmallTables)
      requires tables.Valid()
      ensures Valid() && this.tables == tables && salt == NoSalt && direction == 0 && initialized == 0
      ensures keys == NoKeys()
      ensures fresh(keysched) && fresh(sb0) && fresh(sb1) && fresh(sb2) && fresh(sb3)
    {
      this.tables := tables;
      keysched := new Long[16](_ => Zeros(64));
      sb0 := new Long[4096](_ => Zeros(64));
      sb1 := new Long[4096](_ => Zeros(64));
      sb2 := new Long[4096](_ => Zeros(64));
      sb3 := new Long[4096](_ => Zeros(64));
      salt, saltbits, direction, initialized := NoSalt, Zeros(32), 0, 0;
      keys := NoKeys();
      new;
      hide SmallTables.Valid, Ordered, PackKeys;
      BlankTable(keysched[..], 0);
    }

    /** __init_des_r, as far as it concerns this structure. */
    method Init()
      requires Shape() && Keyed()
      modifies this`salt, this`saltbits, this`initialized, sb0, sb1, sb2, sb3
      ensures Valid() && salt == NoSalt && initialized == old(initialized) + 1
    {
      hide Salted, SmallTables.Valid;
      assert tables.Valid();
      FillTables();
      saltbits := Zeros(32);
      salt := NoSalt;
      initialized := initialized + 1;
    }

    method FillTables()
      requires Shape()
      modifies sb0, sb1, sb2, sb3
      ensures Shape() && TablesSalted(Zeros(32))
    {
      hide Salted, Entry, EpWires;
      FillSb(sb0, 0, tables.eperm);
      FillSb(sb1, 1, tables.eperm);
      FillSb(sb2, 2, tables.eperm);
      FillSb(sb3, 3, tables.eperm);
    }

    /** _ufc_setup_salt_r: rejected salts change nothing, the current salt is recognised, another one is swapped in. */
    method SetupSalt(s0: char, s1: char) returns (ok: bool)
      requires Valid()
      modifies this`salt, this`saltbits, this`initialized, sb0, sb1, sb2, sb3
      ensures Valid() && initialized > 0
      ensures ok == Accepted(s0, s1)
      ensures salt == if ok then TwoChars(s0, s1) else old(salt)
      ensures keysched[..] == old(keysched[..])
    {
      hide Salted, SmallTables.Valid, Keyed;
      if initialized == 0 {
        Init();
      }
      if !GoodForSalt(s0) {
        return false;
      }
      if !GoodForSalt(s1) {
        return false;
      }
      if salt == TwoChars(s0, s1) {
        return true;
      }
      var bits := ComputeSaltBits(s0, s1);
      Reshuffle(Xor(saltbits, bits));
      XorBack(saltbits, bits);
      saltbits := bits;
      salt := TwoChars(s0, s1);
      return true;
    }

    method Reshuffle(mask: Word)
      requires Shape() && TablesSalted(saltbits)
      modifies sb0, sb1, sb2, sb3
      ensures Shape() && TablesSalted(Xor(saltbits, mask))
    {
      hide Salted, SmallTables.Valid;
      ShuffleSb(sb0, mask, 0, saltbits);
      ShuffleSb(sb1, mask, 1, saltbits);
      ShuffleSb(sb2, mask, 2, saltbits);
      ShuffleSb(sb3, mask, 3, saltbits);
    }

    /** However many salts were accepted and rejected before, the tables depend on the last accepted one only. */
    method SetupSalts(salts: seq<(char, char)>)
      requires Valid()
      modifies this`salt, this`saltbits, this`initialized, sb0, sb1, sb2, sb3
      ensures Valid() && salt == LastAccepted(old(salt), salts) && keysched[..] == old(keysched[..])
      ensures salts != [] ==> TablesSalted(BitsOf(salt))
    {
      hide TablesSalted, Shape;
      for i := 0 to |salts|
        invariant Valid() && salt == LastAccepted(old(salt), salts[..i]) && (i > 0 ==> initialized > 0)
        invariant keysched[..] == old(keysched[..])
      {
        var ok := SetupSalt(salts[i].0, salts[i].1);
        assert salts[..i + 1][..i] == salts[..i];
      }
      assert salts[..|salts|] == salts;
    }

    /** __setkey_r. */
    method SetKey(key: seq<Byte>)
      requires Valid() && |key| == 64
      modifies this`salt, this`saltbits, this`initialized, this`direction, this`keys, sb0, sb1, sb2, sb3, keysched
      ensures Valid() && initialized > 0 && direction == 0
      ensures keys == KeySchedule(KeyBits(key))
    {
      hide TablesSalted, Shape, Keyed, KeyBits, KeySeptets, ToBits, RoundKey;
      var ok := SetupSalt('.', '.');
      var ktab := KeyBytes(key);
      FillKeys(ktab, KeyBits(key));
    }

    /** _ufc_mk_keytab_r. */
    method FillKeys(ktab: seq<nat>, ghost key: Bits)
      requires Shape() && TablesSalted(saltbits) && |ktab| == 8 && |key| == 64
      requires forall i :: 0 <= i < 8 ==> ToBits(7, ktab[i] % 128) == KeySeptets(key)[i]
      modifies this`direction, this`keys, keysched
      ensures Shape() && TablesSalted(saltbits) && Keyed() && direction == 0 && keys == KeySchedule(key)
    {
      hide Salted, SmallTables.Valid, PackEntry, RoundKey, KeySeptets, ToBits;
      MakeKeys(tables, keysched, ktab, key);
      direction := 0;
      keys := KeySchedule(key);
    }

    /** Reverse the key table in place if the operation changes. */
    method Turn(edflag: int)
      requires Valid()
      modifies this`direction, keysched
      ensures Valid() && (direction == 0 <==> edflag == 0)
    {
      hide PackEntry, SmallTables.Valid, Salted, Ordered, PackKeys;
      if (edflag == 0) != (direction == 0) {
        ghost var before := keysched[..];
        ReverseInPlace(keysched);
        TurnedKeys(keys, direction, edflag, before, keysched[..]);
        direction := edflag;
      }
    }

    /** Undo any salt. */
    method ClearSalt()
      requires Valid()
      modifies this`salt, this`saltbits, this`initialized, sb0, sb1, sb2, sb3
      ensures Valid() && initialized > 0 && saltbits == Zeros(32) && keysched[..] == old(keysched[..])
    {
      hide TablesSalted, Shape, Keyed, SaltBits;
      var ok := SetupSalt('.', '.');
      DotsAreZero();
    }

    /**
     __encrypt_r on any structure.  With a key: the standard, with the keys in the order edflag asks
     for.  Without one, before any setkey or after crypt: a cipher of its own, whatever edflag is.
     */
    method Encrypt(block: array<int>, edflag: int)
      requires Valid() && block.Length == 64
      modifies this`salt, this`saltbits, this`initialized, this`direction, sb0, sb1, sb2, sb3, keysched, block
      ensures Valid()
      ensures IsKeySchedule(keys) ==>
                BlockBits(block[..]) == Cipher(Ordered(keys, edflag), BlockBits(old(block[..])))
      ensures Keeps(SaltedF(Zeros(32)), 32)
      ensures BlockBits(block[..])
           == CipherWith(SaltedF(Zeros(32)), Ordered(keys, edflag), BlockBits(old(block[..])))
      ensures forall i :: 0 <= i < 64 ==> block[i] == 0 || block[i] == 1
    {
      hide Salted, SmallTables.Valid, Cipher, CipherWith, SaltedF, Keeps, BlockBits, PackKeys, GoodSalt, BitsOf;
      ClearSalt();
      Turn(edflag);
      var v := Transform(block[..], Ordered(keys, edflag));
      if IsKeySchedule(keys) {
        UnsaltedCipher(Ordered(keys, edflag), BlockBits(block[..]));
      }
      StoreBits(block, v);
    }

    /** The middle of __encrypt_r: load, run the kernel once, permute. */
    method Transform(input: seq<int>, ghost ks: seq<Bits>) returns (v: Long)
      requires Shape() && TablesSalted(saltbits) && saltbits == Zeros(32) && |input| == 64
      requires |ks| == 16 && (forall i :: 0 <= i < 16 ==> IsKey(ks[i])) && keysched[..] == PackKeys(ks)
      ensures Keeps(SaltedF(Zeros(32)), 32) && v == CipherWith(SaltedF(Zeros(32)), ks, BlockBits(input))
    {
      hide Shape, TablesSalted, BlockBits, Expand, Ip, Shuffle, PackEntry, Run, SaltedF, Merge;
      ghost var b := BlockBits(input);
      ghost var x := Split(b);
      var l1, l2 := LoadHalf(input, 0);
      var r1, r2 := LoadHalf(input, 1);
      assert Ip(b)[32 * 0..32 * 0 + 32] == x.l && Ip(b)[32 * 1..32 * 1 + 32] == x.r;
      ShuffleZero(Expand(x.l));
      ShuffleZero(Expand(x.r));
      v := Permuted(1, [l1, l2, r1, r2], ks, x);
      IterateOnce(SaltedF(saltbits), ks, x, 32);
    }

    /**
     _ufc_doit_r and _ufc_dofinalperm_r under the current salt: runs of the salted cipher, then the
     final permutation.
     */
    method Permuted(itr: nat, w: seq<Word>, ghost ks: seq<Bits>, ghost x: Halves) returns (v: Long)
      requires Shape() && TablesSalted(saltbits)
      requires |ks| == 16 && (forall i :: 0 <= i < 16 ==> IsKey(ks[i])) && keysched[..] == PackKeys(ks)
      requires x.Is(32) && |w| == 4
      requires Join(w[0], w[1]) == SaltedExpand(x.l, saltbits) && Join(w[2], w[3]) == SaltedExpand(x.r, saltbits)
      ensures Keeps(SaltedF(saltbits), 32) && v == Merge(Iterate(SaltedF(saltbits), ks, itr, x, 32))
    {
      hide SmallTables.Valid, TablesSalted, SaltedExpand, Tables, TablesOk, InRange, PackEntry, SaltedF, KernelF, Fp,
           Iterate, Keeps, Join, Shuffle, Expand;
      ghost var sb01, sb23 := sb0[..] + sb1[..], sb2[..] + sb3[..];
      TablesFound();
      RunsRefine(sb01, sb23, itr, x, ks, saltbits);
      KeysSpread(ks);
      SaltedExpandInRange(x.l, saltbits);
      SaltedExpandInRange(x.r, saltbits);
      var l, r := Doit64(itr, sb0[..] + sb1[..], sb2[..] + sb3[..], keysched[..], Join(w[0], w[1]), Join(w[2], w[3]));
      ghost var y := Iterate(SaltedF(saltbits), ks, itr, x, 32);
      SplitLong(l);
      SplitLong(r);
      Folds(y.l, saltbits);
      Folds(y.r, saltbits);
      v := FinalPermutation(tables, [l[..32], l[32..], r[..32], r[32..]], saltbits, y.l, y.r);
    }

    lemma TablesFound()
      requires Shape() && TablesSalted(saltbits)
      ensures Tables(sb0[..] + sb1[..], sb2[..] + sb3[..], saltbits)
    {
      hide Shuffle, SbEntry, ToBits, SmallTables.Valid;
      PairFound(sb0[..], sb1[..], 0, saltbits);
      PairFound(sb2[..], sb3[..], 2, saltbits);
      hide FreshPair, SaltedFrom;
      assert SaltedPairs(sb0[..] + sb1[..], sb2[..] + sb3[..], FreshTables(0), FreshTables(2), saltbits);
    }

    /**
     __crypt_r for a salt that selects none of the other methods: rejected, or the text of the
     password under the salt; the key table is erased.
     */
    method Crypt(pw: seq<Byte>, s0: char, s1: char) returns (r: Option<string>)
      requires Valid()
      modifies this`salt, this`saltbits, this`initialized, this`direction, this`keys, sb0, sb1, sb2, sb3, keysched
      ensures Valid()
      ensures r.Some? <==> Accepted(s0, s1)
      ensures r.None? ==> salt == old(salt) && keys == old(keys) && keysched[..] == old(keysched[..])
      ensures r.Some? ==> r.value == Text(pw, s0, s1) && salt == TwoChars(s0, s1)
      ensures r.Some? ==> keys == NoKeys() && forall i :: 0 <= i < 16 ==> keysched[i] == Zeros(64)
    {
      hide Keyed, Shape, TablesSalted, SaltBits, GoodForSalt, Text, Result, Digit, Sextet;
      var ok := SetupSalt(s0, s1);
      if !ok {
        return None;
      }
      var v := Hash(pw, s0, s1);
      SplitLong(v);
      var buf := OutputConversion(v[..32], v[32..], s0, s1);
      IsText(buf, pw, s0, s1);
      EraseKeys();
      return Some(buf);
    }

    /** The key schedule of a password and the twenty-five encipherings. */
    method Hash(pw: seq<Byte>, s0: char, s1: char) returns (v: Long)
      requires Shape() && Accepted(s0, s1) && saltbits == SaltBits(s0, s1) && TablesSalted(saltbits)
      modifies this`direction, this`keys, keysched
      ensures Shape() && TablesSalted(saltbits) && direction == 0 && v == Result(pw, s0, s1)
    {
      hide TablesSalted, Shape, GoodForSalt, SaltBits, SaltedF, SaltedExpand, Split, Merge, Iterate, RoundKey,
           PackEntry, KeySeptets, ToBits, PasswordKey;
      var ktab := PasswordBytes(pw);
      FillKeys(ktab, PasswordKey(pw));
      NothingSplit();
      NothingExpanded(saltbits);
      var z := Zeros(32);
      v := Permuted(25, [z, z, z, z], keys, Split(Zeros(64)));
      PermuteOnce(SaltedF(saltbits), keys, 25, Zeros(64));
    }

    method EraseKeys()
      requires Shape() && TablesSalted(saltbits)
      modifies this`keys, keysched
      ensures Shape() && TablesSalted(saltbits) && Keyed() && keys == NoKeys()
      ensures forall i :: 0 <= i < 16 ==> keysched[i] == Zeros(64)
    {
      hide SmallTables.Valid, Salted;
      for i := 0 to 16
        invariant forall n :: 0 <= n < i ==> keysched[n] == Zeros(64)
      {
        keysched[i] := Zeros(64);
      }
      keys := NoKeys();
      BlankTable(keysched[..], direction);
    }
  }

  lemma NothingSplit()
    ensures Split(Zeros(64)) == Halves(Zeros(32), Zeros(32))
  {
    hide InitialPerm;
    var b := Ip(Zeros(64));
    assert b[..32] == Zeros(32) && b[32..] == Zeros(32);
  }

  lemma PackNothing()
    ensures Pack(Zeros(48)) == Zeros(64)
  {
    hide Pack;
    var w := Pack(Zeros(48));
    forall q | 0 <= q < 64
      ensures !w[q]
    {
      if w[q] {
        var i := PackOnly(Zeros(48), q);
      }
    }
  }

  lemma NothingExpanded(s: Word)
    ensures Join(Zeros(32), Zeros(32)) == SaltedExpand(Zeros(32), s)
  {
    hide Esel, Shuffle, Pack;
    assert E(Zeros(32)) == Zeros(48);
    hide E;
    PackNothing();
    var u, z := Shuffle(Zeros(64), s), Join(Zeros(32), Zeros(32));
    forall q | 0 <= q < 64
      ensures !u[q]
    {
      ShuffleExchanges(Zeros(64), s, if q < 32 then q else q - 32);
    }
    assert u == z;
  }

  /** An sb table as __init_des_r leaves it. */
  ghost function FreshTable(sg: nat): (g: seq<Long>)
    requires sg < 4
    ensures |g| == 4096 && forall i :: 0 <= i < 4096 ==> g[i] == SbEntry(sg, ToBits(12, i))
  {
    hide SbEntry, ToBits;
    seq(4096, i requires 0 <= i < 4096 => SbEntry(sg, ToBits(12, i)))
  }

  /** Two adjacent ones. */
  ghost function FreshTables(sg: nat): (g: seq<Long>)
    requires sg + 1 < 4
    ensures FreshPair(g, sg)
  {
    hide FreshTable, SbEntry, ToBits;
    FreshTable(sg) + FreshTable(sg + 1)
  }

  lemma PairFound(a: seq<Long>, b: seq<Long>, sg: nat, s: Word)
    requires sg + 1 < 4 && Salted(a, sg, s) && Salted(b, sg + 1, s)
    ensures SaltedFrom(a + b, FreshTables(sg), s)
  {
    hide Shuffle, SbEntry, ToBits, FreshTables;
    var g := FreshTables(sg);
    forall i | 0 <= i < 8192
      ensures (a + b)[i] == Shuffle(g[i], s)
    {
      if i >= 4096 {
        assert g[4096 + (i - 4096)] == SbEntry(sg + 1, ToBits(12, i - 4096));
      }
    }
  }

  method ReverseInPlace(kt: array<Long>)
    requires kt.Length == 16
    modifies kt
    ensures forall n :: 0 <= n < 16 ==> kt[n] == old(kt[15 - n])
  {
    for i := 0 to 8
      invariant forall n :: 0 <= n < 16 ==> kt[n] == if n < i || 15 - n < i then old(kt[15 - n]) else old(kt[n])
    {
      var x := kt[15 - i];
      kt[15 - i] := kt[i];
      kt[i] := x;
    }
  }

  ghost predicate IsKeySchedule(keys: seq<Bits>) {
    |keys| == 16 && forall i :: 0 <= i < 16 ==> |keys[i]| == 48
  }

  /** The round keys in the order an operation uses them. */
  ghost function Ordered(keys: seq<Bits>, edflag: int): (r: seq<Bits>)
    ensures |r| == |keys|
    ensures (forall i :: 0 <= i < |keys| ==> IsKey(keys[i])) ==> forall i :: 0 <= i < |r| ==> IsKey(r[i])
    ensures IsKeySchedule(keys) ==> IsKeySchedule(r)
  {
    if edflag == 0 then keys else Reverse(keys)
  }

  lemma BlankTable(kt: seq<Long>, direction: int)
    requires |kt| == 16 && forall i :: 0 <= i < 16 ==> kt[i] == Zeros(64)
    ensures kt == PackKeys(Ordered(NoKeys(), direction))
  {}

  lemma TurnedKeys(keys: seq<Bits>, before: int, after: int, kt: seq<Long>, kt': seq<Long>)
    requires |keys| == 16 && (forall i :: 0 <= i < 16 ==> IsKey(keys[i])) && (before == 0) != (after == 0)
    requires kt == PackKeys(Ordered(keys, before))
    requires |kt'| == 16 && forall n :: 0 <= n < 16 ==> kt'[n] == kt[15 - n]
    ensures kt' == PackKeys(Ordered(keys, after))
  {
    hide PackEntry;
    ReverseTwice(keys);
  }

  lemma KeysSpread(keys: seq<Bits>)
    requires |keys| == 16 && forall i :: 0 <= i < 16 ==> IsKey(keys[i])
    ensures KeysOk(PackKeys(keys))
  {
    hide PackEntry, Spread;
    forall i | 0 <= i < 16
      ensures Spread(PackKeys(keys)[i])
    {
      EntrySpread(keys[i]);
    }
  }

  lemma IterateOnce(f: RoundFunction, keys: seq<Bits>, x: Halves, n: nat)
    requires Keeps(f, n) && x.Is(n)
    ensures Iterate(f, keys, 1, x, n) == Run(f, keys, x, n)
  {
    hide Run;
    assert Iterate(f, keys, 1, x, n) == Iterate(f, keys, 0, Run(f, keys, x, n), n);
  }

  lemma SplitLong(l: Long)
    ensures Join(l[..32], l[32..]) == l
  {}

  /** The loops that write the result back, one byte per bit. */
  method StoreBits(block: array<int>, v: Long)
    requires block.Length == 64
    modifies block
    ensures BlockBits(block[..]) == v
    ensures forall i :: 0 <= i < 64 ==> block[i] == 0 || block[i] == 1
  {
    for i := 0 to 64
      invariant forall n :: 0 <= n < i ==> block[n] == if v[n] then 1 else 0
    {
      block[i] := if v[i] then 1 else 0;
    }
    SameBits(block[..], v);
  }

  lemma SameBits(block: seq<int>, v: Long)
    requires |block| == 64 && forall n :: 0 <= n < 64 ==> block[n] == if v[n] then 1 else 0
    ensures BlockBits(block) == v
  {}

  ghost function LastAccepted(before: Salt, salts: seq<(char, char)>): Salt {
    if |salts| == 0 then before
    else
      var s := salts[|salts| - 1];
      if Accepted(s.0, s.1) then TwoChars(s.0, s.1) else LastAccepted(before, salts[..|salts| - 1])
  }

  lemma XorBack(a: Word, b: Word)
    ensures Xor(a, Xor(a, b)) == b
  {}

  /** The saltbits loop. */
  method ComputeSaltBits(s0: char, s1: char) returns (bits: Word)
    requires GoodForSalt(s0) && GoodForSalt(s1)
    ensures bits == SaltBits(s0, s1)
  {
    hide SaltBit;
    bits := Zeros(32);
    for i := 0 to 2
      invariant forall q :: 0 <= q < 32 ==> bits[q] == (q < 1 + 6 * i && SaltBits(s0, s1)[q])
    {
      for j := 0 to 6
        invariant forall q :: 0 <= q < 32 ==> bits[q] == (q < 1 + 6 * i + j && SaltBits(s0, s1)[q])
      {
        if SaltBit(if i == 0 then s0 else s1, j) {
          bits := bits[1 + 6 * i + j := true];
        }
        assert i == 0 ==> SaltBits(s0, s1)[1 + j] == SaltBit(s0, j);
        assert i == 1 ==> SaltBits(s0, s1)[7 + j] == SaltBit(s1, j);
      }
    }
  }

  /** Deciphering restores an enciphered block, whatever other blocks and salts are handled in between. */
  method RoundTrip(data: CryptData, key: seq<Byte>, block: array<int>, other: array<int>,
                   flags: seq<int>, salts: seq<(char, char)>, decrypt: int)
    requires data.Valid() && |key| == 64
    requires block.Length == 64 && other.Length == 64 && block != other && decrypt != 0
    modifies data, data.sb0, data.sb1, data.sb2, data.sb3, data.keysched, block, other
    ensures BlockBits(block[..]) == BlockBits(old(block[..]))
  {
    hide CryptData.Valid, Cipher, BlockBits, KeyBits, CipherWith, SaltedF, Keeps;
    data.SetKey(key);
    ghost var keys := KeySchedule(KeyBits(key));
    data.Encrypt(block, 0);
    ghost var middle := BlockBits(block[..]);
    for i := 0 to |flags|
      invariant data.Valid() && data.keys == keys && BlockBits(block[..]) == middle
    {
      data.Encrypt(other, flags[i]);
      data.SetupSalts(salts);
    }
    data.Encrypt(block, decrypt);
    Restores(keys, BlockBits(old(block[..])));
  }

  /** After crypt there is no key: enciphering twice, in either direction, gives the block back. */
  method WithoutKey(data: CryptData, pw: seq<Byte>, s0: char, s1: char, block: array<int>, first: int, second: int)
    requires data.Valid() && block.Length == 64
    modifies data, data.sb0, data.sb1, data.sb2, data.sb3, data.keysched, block
    ensures Accepted(s0, s1) ==> BlockBits(block[..]) == BlockBits(old(block[..]))
  {
    hide CryptData.Valid, Cipher, BlockBits, CipherWith, SaltedF, Keeps, GoodForSalt, Text;
    var r := data.Crypt(pw, s0, s1);
    data.Encrypt(block, first);
    data.Encrypt(block, second);
    UnkeyedTwice(Zeros(32), BlockBits(old(block[..])));
  }
}
