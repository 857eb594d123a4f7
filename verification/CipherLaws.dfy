/**
 Laws of the cipher beyond its tables: the permutations that lose no bit, the key schedule that
 comes round, complementation, and the keys under which enciphering twice changes nothing.
 */
module CipherLaws {
  import opened Bits
  import opened Feistel
  import opened DesSpec
  import opened SaltedDes

  // ----- permutations and choices

  /** No bit is chosen twice; P has 32 of 32 places and so is a permutation, Pc1 takes all 56 that are not parity. */
  lemma PermOneToOne(i: nat, j: nat)
    requires i < j < 32
    ensures Perm32(i) != Perm32(j)
  {}

  lemma Pc1OneToOne(i: nat, j: nat)
    requires i < j < 56
    ensures Pc1(i) != Pc1(j)
  {}

  lemma Pc2OneToOne(i: nat, j: nat)
    requires i < j < 48
    ensures Pc2(i) != Pc2(j)
  {}

  // ----- the shifts of the key schedule

  function Total(n: nat): (t: nat)
    requires n <= 16
    ensures t <= 2 * n
  {
    if n == 0 then 0 else Total(n - 1) + Rots(n - 1)
  }

  lemma RotatedAt(c: Bits, n: nat, j: nat)
    requires |c| == 28 && n <= 2 && j < 28
    ensures RotateLeft(c, n)[j] == c[(j + n) % 28]
  {}

  lemma Around(j: nat, n: nat, t: nat)
    requires j < 28 && n <= 2
    ensures ((j + n) % 28 + t) % 28 == (j + (t + n)) % 28
  {
    if j + n < 28 {
      assert (j + n) % 28 == j + n;
    } else {
      assert (j + n) % 28 == j + n - 28;
      assert (j + n + t) % 28 == (j + n - 28 + t) % 28;
    }
  }

  lemma {:induction false} ShiftedAt(c: Bits, n: nat, j: nat)
    requires |c| == 28 && n <= 16 && j < 28
    ensures Shifted(c, n)[j] == c[(j + Total(n)) % 28]
  {
    hide Rots, RotateLeft;
    if n > 0 {
      RotatedAt(Shifted(c, n - 1), Rots(n - 1), j);
      ShiftedAt(c, n - 1, (j + Rots(n - 1)) % 28);
      Around(j, Rots(n - 1), Total(n - 1));
    }
  }

  lemma TotalIs()
    ensures Total(16) == 28
  {
    assert Total(4) == 6;
    assert Total(8) == 14;
    assert Total(12) == 21;
  }

  /** After sixteen rounds both halves of the key are where they began. */
  lemma ShiftsComeRound(c: Bits)
    requires |c| == 28
    ensures Shifted(c, 16) == c
  {
    hide Shifted, Total;
    TotalIs();
    forall j | 0 <= j < 28
      ensures Shifted(c, 16)[j] == c[j]
    {
      ShiftedAt(c, 16, j);
    }
  }

  /** So the last round has the key as permuted choice 1 left it. */
  lemma LastRoundKey(key: Bits)
    requires |key| == 64
    ensures RoundKey(key, 15) == PermutedChoice2(PermutedChoice1(key))
  {
    hide PermutedChoice1, PermutedChoice2, Shifted;
    var cd := PermutedChoice1(key);
    ShiftsComeRound(cd[..28]);
    ShiftsComeRound(cd[28..]);
    assert cd[..28] + cd[28..] == cd;
  }

  // ----- complementation

  function Not(b: Bits): (r: Bits)
    ensures |r| == |b| && forall i :: 0 <= i < |b| ==> r[i] == !b[i]
  {
    seq(|b|, i requires 0 <= i < |b| => !b[i])
  }

  ghost function NotAll(keys: seq<Bits>): (r: seq<Bits>)
    ensures |r| == |keys| && forall i :: 0 <= i < |keys| ==> r[i] == Not(keys[i])
  {
    seq(|keys|, i requires 0 <= i < |keys| => Not(keys[i]))
  }

  lemma XorNot(a: Bits, b: Bits)
    requires |a| == |b|
    ensures Xor(Not(a), b) == Not(Xor(a, b)) && Xor(Not(a), Not(b)) == Xor(a, b)
  {}

  lemma NotSaltedE(h: Bits, s: Word)
    requires |h| == 32
    ensures SaltedE(Not(h), s) == Not(SaltedE(h, s))
  {
    hide E;
    var e, d := E(h), E(Not(h));
    assert forall i :: 0 <= i < 48 ==> d[i] == !e[i];
    var x, y := SaltedE(Not(h), s), Not(SaltedE(h, s));
    forall i | 0 <= i < 48
      ensures x[i] == y[i]
    {
      if i >= 24 {
        assert x[24 + (i - 24)] == y[24 + (i - 24)];
      }
    }
  }

  /** A round sees no difference between a half and a key and their complements, under any salt. */
  lemma NotSaltedF(r: Bits, key: Bits, s: Word)
    requires |r| == 32 && |key| == 48
    ensures SaltedF(s)(Not(r), Not(key)) == SaltedF(s)(r, key)
  {
    hide SaltedE, P, SBoxes, UnkeyedRound;
    NotSaltedE(r, s);
    XorNot(SaltedE(r, s), key);
    assert SaltedF(s)(r, key) == SaltedStep(r, key, s) == SaltedRound(r, key, s);
    assert SaltedF(s)(Not(r), Not(key)) == SaltedStep(Not(r), Not(key), s) == SaltedRound(Not(r), Not(key), s);
  }

  lemma {:induction false} NotRounds(x: Halves, keys: seq<Bits>, s: Word)
    requires x.Is(32) && Keeps(SaltedF(s), 32)
    requires forall i :: 0 <= i < |keys| ==> |keys[i]| == 48
    ensures var y := Rounds(SaltedF(s), x, keys, 32);
            Rounds(SaltedF(s), Halves(Not(x.l), Not(x.r)), NotAll(keys), 32) == Halves(Not(y.l), Not(y.r))
    decreases |keys|
  {
    hide SaltedF;
    if |keys| > 0 {
      var f := SaltedF(s)(x.r, keys[0]);
      NotSaltedF(x.r, keys[0], s);
      XorNot(x.l, f);
      assert NotAll(keys)[1..] == NotAll(keys[1..]);
      NotRounds(Halves(x.r, Xor(x.l, f)), keys[1..], s);
    }
  }

  lemma NotSplit(block: Bits)
    requires |block| == 64
    ensures Split(Not(block)) == Halves(Not(Split(block).l), Not(Split(block).r))
  {
    hide InitialPerm;
    var b, c := Ip(block), Ip(Not(block));
    assert forall i :: 0 <= i < 64 ==> c[i] == !b[i];
    assert c[..32] == Not(b[..32]) && c[32..] == Not(b[32..]);
  }

  lemma NotMerge(x: Halves)
    requires x.Is(32)
    ensures Merge(Halves(Not(x.l), Not(x.r))) == Not(Merge(x))
  {
    hide FinalPerm;
    assert Not(x.l) + Not(x.r) == Not(x.l + x.r);
  }

  /** Complementing every key and the block complements the result, under any salt. */
  lemma NotCipher(s: Word, keys: seq<Bits>, block: Bits)
    requires |block| == 64 && forall i :: 0 <= i < |keys| ==> |keys[i]| == 48
    ensures Keeps(SaltedF(s), 32)
    ensures CipherWith(SaltedF(s), NotAll(keys), Not(block)) == Not(CipherWith(SaltedF(s), keys, block))
  {
    hide SaltedF, Rounds, Split, Merge, NotAll, Not;
    SaltedFKeeps(s);
    var x := Split(block);
    NotSplit(block);
    NotRounds(x, keys, s);
    var y := Rounds(SaltedF(s), x, keys, 32);
    NotMerge(Halves(y.r, y.l));
  }

  lemma NotRotated(c: Bits, n: nat)
    requires n <= |c|
    ensures RotateLeft(Not(c), n) == Not(RotateLeft(c, n))
  {}

  lemma {:induction false} NotShifted(c: Bits, n: nat)
    requires |c| == 28 && n <= 16
    ensures Shifted(Not(c), n) == Not(Shifted(c, n))
  {
    hide Not, RotateLeft, Rots;
    if n > 0 {
      NotShifted(c, n - 1);
      NotRotated(Shifted(c, n - 1), Rots(n - 1));
    }
  }

  lemma NotChoice1(key: Bits)
    requires |key| == 64
    ensures PermutedChoice1(Not(key)) == Not(PermutedChoice1(key))
  {
    hide Pc1;
  }

  lemma NotChoice2(cd: Bits)
    requires |cd| == 56
    ensures PermutedChoice2(Not(cd)) == Not(PermutedChoice2(cd))
  {
    hide Pc2;
  }

  lemma NotRoundKey(key: Bits, n: nat)
    requires |key| == 64 && n < 16
    ensures RoundKey(Not(key), n) == Not(RoundKey(key, n))
  {
    hide PermutedChoice1, PermutedChoice2, Shifted;
    NotChoice1(key);
    var cd := PermutedChoice1(key);
    assert Not(cd)[..28] == Not(cd[..28]) && Not(cd)[28..] == Not(cd[28..]);
    var c, d := Shifted(cd[..28], n + 1), Shifted(cd[28..], n + 1);
    NotShifted(cd[..28], n + 1);
    NotShifted(cd[28..], n + 1);
    assert Not(c) + Not(d) == Not(c + d);
    NotChoice2(c + d);
  }

  /** Complementing the key and the block complements the result, under any salt. */
  lemma Complementation(s: Word, key: Bits, block: Bits)
    requires |key| == 64 && |block| == 64
    ensures Keeps(SaltedF(s), 32)
    ensures CipherWith(SaltedF(s), KeySchedule(Not(key)), Not(block))
         == Not(CipherWith(SaltedF(s), KeySchedule(key), block))
  {
    hide SaltedF, CipherWith, RoundKey, Not;
    var u, v := KeySchedule(Not(key)), NotAll(KeySchedule(key));
    forall n | 0 <= n < 16
      ensures u[n] == v[n]
    {
      NotRoundKey(key, n);
    }
    assert u == v;
    NotCipher(s, KeySchedule(key), block);
  }

  // ----- weak keys

  ghost predicate Constant(c: Bits) {
    forall i, j :: 0 <= i < j < |c| ==> c[i] == c[j]
  }

  lemma {:induction false} ConstantShifted(c: Bits, n: nat)
    requires |c| == 28 && n <= 16 && Constant(c)
    ensures Shifted(c, n) == c
  {
    hide Shifted, Total;
    forall j | 0 <= j < 28
      ensures Shifted(c, n)[j] == c[j]
    {
      ShiftedAt(c, n, j);
    }
  }

  /** Under a key whose halves are each of one bit, all rounds have one key. */
  lemma WeakSchedule(key: Bits)
    requires |key| == 64
    requires var cd := PermutedChoice1(key); Constant(cd[..28]) && Constant(cd[28..])
    ensures Reverse(KeySchedule(key)) == KeySchedule(key)
  {
    hide PermutedChoice1, PermutedChoice2, Shifted, Constant;
    var cd, k := PermutedChoice1(key), KeySchedule(key);
    forall n | 0 <= n < 16
      ensures k[n] == PermutedChoice2(cd[..28] + cd[28..])
    {
      ConstantShifted(cd[..28], n + 1);
      ConstantShifted(cd[28..], n + 1);
    }
  }

  /** Under such a key enciphering twice changes nothing, whatever the salt. */
  lemma WeakKey(s: Word, key: Bits, block: Bits)
    requires |key| == 64 && |block| == 64
    requires var cd := PermutedChoice1(key); Constant(cd[..28]) && Constant(cd[28..])
    ensures Keeps(SaltedF(s), 32)
    ensures CipherWith(SaltedF(s), KeySchedule(key), CipherWith(SaltedF(s), KeySchedule(key), block)) == block
  {
    hide SaltedF, CipherWith, Constant, PermutedChoice1, KeySchedule;
    SaltedFKeeps(s);
    WeakSchedule(key);
    CipherUndo(SaltedF(s), KeySchedule(key), block);
  }

  /** An odd number of encipherings under such a key is one. */
  lemma {:induction false} WeakTimes(s: Word, key: Bits, n: nat, block: Bits)
    requires |key| == 64 && |block| == 64
    requires var cd := PermutedChoice1(key); Constant(cd[..28]) && Constant(cd[28..])
    ensures Keeps(SaltedF(s), 32)
    ensures CipherTimes(SaltedF(s), KeySchedule(key), 2 * n + 1, block)
         == CipherWith(SaltedF(s), KeySchedule(key), block)
  {
    hide SaltedF, CipherWith, Constant, PermutedChoice1, KeySchedule;
    SaltedFKeeps(s);
    var f, k := SaltedF(s), KeySchedule(key);
    if n == 0 {
      assert CipherTimes(f, k, 0, block) == block;
    } else {
      WeakTimes(s, key, n - 1, block);
      assert CipherTimes(f, k, 2 * n, block) == CipherWith(f, k, CipherTimes(f, k, 2 * n - 1, block));
      WeakKey(s, key, block);
    }
  }

  // ----- many encipherings

  /** As many decipherings undo any number of encipherings. */
  lemma TimesUndo(f: RoundFunction, keys: seq<Bits>, n: nat, block: Bits)
    requires Keeps(f, 32) && |block| == 64
    ensures CipherTimes(f, Reverse(keys), n, CipherTimes(f, keys, n, block)) == block
  {
    hide Keeps, CipherTimes, Iterate, Split, Merge;
    var x := Iterate(f, keys, n, Split(block), 32);
    PermuteOnce(f, keys, n, block);
    PermuteOnce(f, Reverse(keys), n, Merge(x));
    SplitMerge(x);
    IterateUndo(f, keys, n, Split(block), 32);
    MergeSplit(block);
  }
}
