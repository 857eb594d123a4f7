/**
 What the selection functions of the standard were chosen for: the criteria their designers
 published, proved of all eight for all inputs.  The sixteen columns of a row are checked at once,
 as the digits of one word.
 */
module SboxLaws {
  import opened Bits
  import opened DesSpec

  // ----- selection functions on machine words

  function Six(x: bv6): (b: Bits)
    ensures |b| == 6
  {
    [x & 32 != 0, x & 16 != 0, x & 8 != 0, x & 4 != 0, x & 2 != 0, x & 1 != 0]
  }

  function Four(x: bv4): (b: Bits)
    ensures |b| == 4
  {
    [x & 8 != 0, x & 4 != 0, x & 2 != 0, x & 1 != 0]
  }

  /** The outer two bits. */
  function Outer(x: bv6): bv2 {
    (((x >> 4) & 2) | (x & 1)) as bv2
  }

  function Inner(x: bv6): bv4 {
    ((x >> 1) & 15) as bv4
  }

  function RowWord(k: nat, r: bv2): bv64
    requires k < 8
  {
    Choose(SboxRow(k, 0), SboxRow(k, 1), SboxRow(k, 2), SboxRow(k, 3), r)
  }

  function Choose(a: bv64, b: bv64, c: bv64, d: bv64, r: bv2): bv64 {
    if r == 0 then a else if r == 1 then b else if r == 2 then c else d
  }

  /** Digit c of a row, counted from the left. */
  function Pick(w: bv64, c: bv4): bv4 {
    ((w >> (60 - 4 * (c as bv64))) & 15) as bv4
  }

  function SWord(k: nat, x: bv6): bv4
    requires k < 8
  {
    Pick(RowWord(k, Outer(x)), Inner(x))
  }

  lemma FourBits(v: nat)
    requires v < 16
    ensures ToBits(4, v) == [v / 8 % 2 == 1, v / 4 % 2 == 1, v / 2 % 2 == 1, v % 2 == 1]
  {
    assert v / 2 / 2 == v / 4 && v / 4 / 2 == v / 8;
    assert ToBits(1, v / 8) == [v / 8 % 2 == 1];
    assert ToBits(2, v / 4) == [v / 8 % 2 == 1, v / 4 % 2 == 1];
    assert ToBits(3, v / 2) == [v / 8 % 2 == 1, v / 4 % 2 == 1, v / 2 % 2 == 1];
  }

  lemma FourValue(a: bool, b: bool, c: bool, d: bool)
    ensures Value([a, b, c, d])
         == (if a then 8 else 0) + (if b then 4 else 0) + (if c then 2 else 0) + (if d then 1 else 0)
  {
    assert [a, b, c, d][..3] == [a, b, c] && [a, b, c][..2] == [a, b] && [a, b][..1] == [a] && [a][..0] == [];
    assert Value([a]) == if a then 1 else 0;
    assert Value([a, b]) == (if a then 2 else 0) + (if b then 1 else 0);
    assert Value([a, b, c]) == (if a then 4 else 0) + (if b then 2 else 0) + (if c then 1 else 0);
  }

  lemma FourWord(v: bv4)
    ensures ToBits(4, v as nat) == Four(v)
  {
    FourBits(v as nat);
    hide ToBits;
  }

  ghost predicate SameColumn(n: nat, c: bv4) {
    || (n == 0 && c == 0) || (n == 1 && c == 1) || (n == 2 && c == 2) || (n == 3 && c == 3)
    || (n == 4 && c == 4) || (n == 5 && c == 5) || (n == 6 && c == 6) || (n == 7 && c == 7)
    || (n == 8 && c == 8) || (n == 9 && c == 9) || (n == 10 && c == 10) || (n == 11 && c == 11)
    || (n == 12 && c == 12) || (n == 13 && c == 13) || (n == 14 && c == 14) || (n == 15 && c == 15)
  }

  lemma ColumnPick(w: bv64, n: nat, c: bv4)
    requires SameColumn(n, c)
    ensures n < 16 && Column(w, n) == Pick(w, c) as nat
  {}

  lemma InnerColumn(x: bv6, n: nat)
    requires n == (if x & 16 != 0 then 8 else 0) + (if x & 8 != 0 then 4 else 0)
                  + (if x & 4 != 0 then 2 else 0) + (if x & 2 != 0 then 1 else 0)
    ensures SameColumn(n, Inner(x))
  {}

  lemma OuterRow(k: nat, x: bv6)
    requires k < 8
    ensures RowWord(k, Outer(x)) == SboxRow(k, (if x & 32 != 0 then 2 else 0) + (if x & 1 != 0 then 1 else 0))
  {
    hide SboxRow;
  }

  lemma SBits(k: nat, x: bv6)
    requires k < 8
    ensures S(k, Six(x)) == Four(SWord(k, x))
  {
    hide Value, ToBits, SboxRow, Column, Pick, Outer, Inner, RowWord, SameColumn, Four;
    var b := Six(x);
    assert b[1..5] == [b[1], b[2], b[3], b[4]];
    FourValue(b[1], b[2], b[3], b[4]);
    OuterRow(k, x);
    InnerColumn(x, Value(b[1..5]));
    ColumnPick(RowWord(k, Outer(x)), Value(b[1..5]), Inner(x));
    FourWord(SWord(k, x));
  }

  // ----- all columns of a row at once

  /** A row with columns c and c xor m exchanged. */
  function Turn(w: bv64, m: bv4): bv64 {
    Turn8(Turn4(Turn2(Turn1(w, m), m), m), m)
  }

  function Turn1(w: bv64, m: bv4): bv64 {
    if m & 1 == 0 then w else ((w & 0x0F0F0F0F0F0F0F0F) << 4) | ((w >> 4) & 0x0F0F0F0F0F0F0F0F)
  }

  function Turn2(w: bv64, m: bv4): bv64 {
    if m & 2 == 0 then w else ((w & 0x00FF00FF00FF00FF) << 8) | ((w >> 8) & 0x00FF00FF00FF00FF)
  }

  function Turn4(w: bv64, m: bv4): bv64 {
    if m & 4 == 0 then w else ((w & 0x0000FFFF0000FFFF) << 16) | ((w >> 16) & 0x0000FFFF0000FFFF)
  }

  function Turn8(w: bv64, m: bv4): bv64 {
    if m & 8 == 0 then w else (w << 32) | (w >> 32)
  }

  lemma PickTurn1(w: bv64, m: bv4, c: bv4)
    ensures Pick(Turn1(w, m), c) == Pick(w, c ^ (m & 1))
  {}

  lemma PickTurn2(w: bv64, m: bv4, c: bv4)
    ensures Pick(Turn2(w, m), c) == Pick(w, c ^ (m & 2))
  {}

  lemma PickTurn4(w: bv64, m: bv4, c: bv4)
    ensures Pick(Turn4(w, m), c) == Pick(w, c ^ (m & 4))
  {}

  lemma PickTurn8(w: bv64, m: bv4, c: bv4)
    ensures Pick(Turn8(w, m), c) == Pick(w, c ^ (m & 8))
  {}

  lemma PickTurn(w: bv64, m: bv4, c: bv4)
    ensures Pick(Turn(w, m), c) == Pick(w, c ^ m)
  {
    hide Pick, Turn1, Turn2, Turn4, Turn8;
    PickTurn8(Turn4(Turn2(Turn1(w, m), m), m), m, c);
    PickTurn4(Turn2(Turn1(w, m), m), m, c ^ (m & 8));
    PickTurn2(Turn1(w, m), m, c ^ (m & 8) ^ (m & 4));
    PickTurn1(w, m, c ^ (m & 8) ^ (m & 4) ^ (m & 2));
    assert c ^ (m & 8) ^ (m & 4) ^ (m & 2) ^ (m & 1) == c ^ m;
  }

  lemma PickXor(a: bv64, b: bv64, c: bv4)
    ensures Pick(a ^ b, c) == Pick(a, c) ^ Pick(b, c)
  {}

  /** Every digit has a bit set. */
  predicate OneEach(z: bv64) {
    (z | (z >> 1) | (z >> 2) | (z >> 3)) & 0x1111111111111111 == 0x1111111111111111
  }

  /** Every digit has two bits set. */
  predicate TwoEach(z: bv64) {
    ((z & (z >> 1)) | (z & (z >> 2)) | (z & (z >> 3)) | ((z >> 1) & (z >> 2)) | ((z >> 1) & (z >> 3))
     | ((z >> 2) & (z >> 3))) & 0x1111111111111111 == 0x1111111111111111
  }

  predicate Two(z: bv4) {
    z & (z - 1) != 0
  }

  lemma PickOne(z: bv64, c: bv4)
    requires OneEach(z)
    ensures Pick(z, c) != 0
  {}

  lemma PickTwo(z: bv64, c: bv4)
    requires TwoEach(z)
    ensures Two(Pick(z, c))
  {}

  lemma PickBoth(a: bv64, b: bv64, c: bv4, m: bv4)
    ensures Pick(a ^ Turn(b, m), c) == Pick(a, c) ^ Pick(b, c ^ m)
  {
    hide Pick, Turn;
    PickXor(a, Turn(b, m), c);
    PickTurn(b, m, c);
  }

  // ----- the criteria of the selection functions, on words

  /** One bit of the outer two or of the inner four changes, or the two in the middle do. */
  predicate Narrow(p: bv2, m: bv4) {
    (p == 0 && (m == 1 || m == 2 || m == 4 || m == 8 || m == 6)) || (m == 0 && (p == 1 || p == 2))
  }

  /** The inner bits change and the outer ones do not. */
  predicate Apart(p: bv2, m: bv4) {
    p == 0 && m != 0
  }

  /** What such changes of the column do in a row: column c against column c xor m, for every c. */
  predicate RowMeets(w: bv64, m: bv4) {
    var z := w ^ Turn(w, m);
    && (m == 1 || m == 2 || m == 4 || m == 8 || m == 6 ==> TwoEach(z))
    && (m != 0 ==> OneEach(z))
  }

  lemma RowMeetsAt(w: bv64, c: bv4, m: bv4)
    requires RowMeets(w, m)
    ensures Narrow(0, m) ==> Two(Pick(w, c) ^ Pick(w, c ^ m))
    ensures m != 0 ==> Pick(w, c) != Pick(w, c ^ m)
  {
    hide Pick, Turn, OneEach, TwoEach, Two;
    PickBoth(w, w, c, m);
    if Narrow(0, m) {
      PickTwo(w ^ Turn(w, m), c);
    }
    if m != 0 {
      PickOne(w ^ Turn(w, m), c);
    }
  }

  /** Two rows differ in two bits in every column. */
  predicate FarRows(a: bv64, b: bv64) {
    TwoEach(a ^ b)
  }

  lemma FarRowsAt(a: bv64, b: bv64, c: bv4)
    requires FarRows(a, b)
    ensures Two(Pick(a, c) ^ Pick(b, c)) && Two(Pick(b, c) ^ Pick(a, c))
  {
    hide Pick, TwoEach;
    PickXor(a, b, c);
    PickTwo(a ^ b, c);
  }

  lemma Rows0(r: bv2, m: bv4)
    ensures RowMeets(RowWord(0, r), m)
  {}

  lemma Rows1(r: bv2, m: bv4)
    ensures RowMeets(RowWord(1, r), m)
  {}

  lemma Rows2(r: bv2, m: bv4)
    ensures RowMeets(RowWord(2, r), m)
  {}

  lemma Rows3(r: bv2, m: bv4)
    ensures RowMeets(RowWord(3, r), m)
  {}

  lemma Rows4(r: bv2, m: bv4)
    ensures RowMeets(RowWord(4, r), m)
  {}

  lemma Rows5(r: bv2, m: bv4)
    ensures RowMeets(RowWord(5, r), m)
  {}

  lemma Rows6(r: bv2, m: bv4)
    ensures RowMeets(RowWord(6, r), m)
  {}

  lemma Rows7(r: bv2, m: bv4)
    ensures RowMeets(RowWord(7, r), m)
  {}

  lemma Pairs0()
    ensures FarRows(SboxRow(0, 0), SboxRow(0, 1)) && FarRows(SboxRow(0, 2), SboxRow(0, 3))
    ensures FarRows(SboxRow(0, 0), SboxRow(0, 2)) && FarRows(SboxRow(0, 1), SboxRow(0, 3))
  {}

  lemma Pairs1()
    ensures FarRows(SboxRow(1, 0), SboxRow(1, 1)) && FarRows(SboxRow(1, 2), SboxRow(1, 3))
    ensures FarRows(SboxRow(1, 0), SboxRow(1, 2)) && FarRows(SboxRow(1, 1), SboxRow(1, 3))
  {}

  lemma Pairs2()
    ensures FarRows(SboxRow(2, 0), SboxRow(2, 1)) && FarRows(SboxRow(2, 2), SboxRow(2, 3))
    ensures FarRows(SboxRow(2, 0), SboxRow(2, 2)) && FarRows(SboxRow(2, 1), SboxRow(2, 3))
  {}

  lemma Pairs3()
    ensures FarRows(SboxRow(3, 0), SboxRow(3, 1)) && FarRows(SboxRow(3, 2), SboxRow(3, 3))
    ensures FarRows(SboxRow(3, 0), SboxRow(3, 2)) && FarRows(SboxRow(3, 1), SboxRow(3, 3))
  {}

  lemma Pairs4()
    ensures FarRows(SboxRow(4, 0), SboxRow(4, 1)) && FarRows(SboxRow(4, 2), SboxRow(4, 3))
    ensures FarRows(SboxRow(4, 0), SboxRow(4, 2)) && FarRows(SboxRow(4, 1), SboxRow(4, 3))
  {}

  lemma Pairs5()
    ensures FarRows(SboxRow(5, 0), SboxRow(5, 1)) && FarRows(SboxRow(5, 2), SboxRow(5, 3))
    ensures FarRows(SboxRow(5, 0), SboxRow(5, 2)) && FarRows(SboxRow(5, 1), SboxRow(5, 3))
  {}

  lemma Pairs6()
    ensures FarRows(SboxRow(6, 0), SboxRow(6, 1)) && FarRows(SboxRow(6, 2), SboxRow(6, 3))
    ensures FarRows(SboxRow(6, 0), SboxRow(6, 2)) && FarRows(SboxRow(6, 1), SboxRow(6, 3))
  {}

  lemma Pairs7()
    ensures FarRows(SboxRow(7, 0), SboxRow(7, 1)) && FarRows(SboxRow(7, 2), SboxRow(7, 3))
    ensures FarRows(SboxRow(7, 0), SboxRow(7, 2)) && FarRows(SboxRow(7, 1), SboxRow(7, 3))
  {}

  lemma BoxMeets(k: nat, r: bv2, m: bv4)
    requires k < 8
    ensures RowMeets(RowWord(k, r), m)
    ensures FarRows(SboxRow(k, 0), SboxRow(k, 1)) && FarRows(SboxRow(k, 2), SboxRow(k, 3))
    ensures FarRows(SboxRow(k, 0), SboxRow(k, 2)) && FarRows(SboxRow(k, 1), SboxRow(k, 3))
  {
    hide RowMeets, RowWord, FarRows, SboxRow;
    match k {
      case 0 =>
        Rows0(r, m);
        Pairs0();
      case 1 =>
        Rows1(r, m);
        Pairs1();
      case 2 =>
        Rows2(r, m);
        Pairs2();
      case 3 =>
        Rows3(r, m);
        Pairs3();
      case 4 =>
        Rows4(r, m);
        Pairs4();
      case 5 =>
        Rows5(r, m);
        Pairs5();
      case 6 =>
        Rows6(r, m);
        Pairs6();
      case 7 =>
        Rows7(r, m);
        Pairs7();
    }
  }

  lemma OuterMeets(k: nat, r: bv2, p: bv2, c: bv4)
    requires k < 8 && (p == 1 || p == 2)
    ensures Two(Pick(RowWord(k, r), c) ^ Pick(RowWord(k, r ^ p), c))
  {
    hide SboxRow, FarRows, Pick, Two;
    BoxMeets(k, r, 0);
    FarRowsAt(SboxRow(k, 0), SboxRow(k, 1), c);
    FarRowsAt(SboxRow(k, 2), SboxRow(k, 3), c);
    FarRowsAt(SboxRow(k, 0), SboxRow(k, 2), c);
    FarRowsAt(SboxRow(k, 1), SboxRow(k, 3), c);
  }

  lemma RowsMeet(k: nat, r: bv2, p: bv2, c: bv4, m: bv4)
    requires k < 8
    ensures var u, v := Pick(RowWord(k, r), c), Pick(RowWord(k, r ^ p), c ^ m);
            (Narrow(p, m) ==> Two(u ^ v)) && (Apart(p, m) ==> u != v)
  {
    hide RowWord, Pick, RowMeets, FarRows, Two;
    if p == 0 {
      BoxMeets(k, r, m);
      RowMeetsAt(RowWord(k, r), c, m);
    } else if Narrow(p, m) {
      OuterMeets(k, r, p, c);
    }
  }

  lemma Moves(x: bv6, m: bv6)
    ensures Outer(x ^ m) == Outer(x) ^ Outer(m) && Inner(x ^ m) == Inner(x) ^ Inner(m)
  {}

  lemma WordsMeet(k: nat, x: bv6, m: bv6)
    requires k < 8
    ensures Narrow(Outer(m), Inner(m)) ==> Two(SWord(k, x) ^ SWord(k, x ^ m))
    ensures Apart(Outer(m), Inner(m)) ==> SWord(k, x) != SWord(k, x ^ m)
  {
    hide RowWord, Pick, Two, Outer, Inner, Narrow, Apart;
    Moves(x, m);
    RowsMeet(k, Outer(x), Outer(m), Inner(x), Inner(m));
  }

  // ----- the criteria on bits

  function Word(b: Bits): bv6
    requires |b| == 6
  {
    (if b[0] then 32 else 0) | (if b[1] then 16 else 0) | (if b[2] then 8 else 0) |
    (if b[3] then 4 else 0) | (if b[4] then 2 else 0) | (if b[5] then 1 else 0)
  }

  lemma SixWord(b: Bits)
    requires |b| == 6
    ensures Six(Word(b)) == b
  {}

  lemma FourOneToOne(u: bv4, v: bv4)
    requires u != v
    ensures Four(u) != Four(v)
  {
    var a, b := Four(u), Four(v);
    assert a[0] != b[0] || a[1] != b[1] || a[2] != b[2] || a[3] != b[3];
  }

  ghost predicate TwoDiffer(u: Bits, v: Bits)
    requires |u| == |v|
  {
    exists i, j :: 0 <= i < j < |u| && u[i] != v[i] && u[j] != v[j]
  }

  lemma TwoBits(u: bv4, v: bv4)
    requires Two(u ^ v)
    ensures TwoDiffer(Four(u), Four(v))
  {
    var a, b := Four(u), Four(v);
    assert (a[0] != b[0] && a[1] != b[1]) || (a[0] != b[0] && a[2] != b[2]) || (a[0] != b[0] && a[3] != b[3])
        || (a[1] != b[1] && a[2] != b[2]) || (a[1] != b[1] && a[3] != b[3]) || (a[2] != b[2] && a[3] != b[3]);
  }

  function Place(i: nat): (m: bv6)
    requires i < 6
    ensures Narrow(Outer(m), Inner(m))
  {
    if i == 0 then 32 else if i == 1 then 16 else if i == 2 then 8 else if i == 3 then 4 else if i == 4 then 2 else 1
  }

  lemma FlipWord(x: bv6, i: nat)
    requires i < 6
    ensures Six(x)[i := !Six(x)[i]] == Six(x ^ Place(i))
  {}

  /** Changing one bit of six changes at least two bits of the result of any selection function. */
  lemma OneBitSpreads(k: nat, b: Bits, i: nat)
    requires k < 8 && |b| == 6 && i < 6
    ensures TwoDiffer(S(k, b), S(k, b[i := !b[i]]))
  {
    hide S, SWord, Two, TwoDiffer, Six, Word, Place, Narrow, Outer, Inner;
    var x, m := Word(b), Place(i);
    SixWord(b);
    FlipWord(x, i);
    SBits(k, x);
    SBits(k, x ^ m);
    WordsMeet(k, x, m);
    TwoBits(SWord(k, x), SWord(k, x ^ m));
  }

  /** So does changing the two bits in the middle. */
  lemma MiddleSpreads(k: nat, b: Bits)
    requires k < 8 && |b| == 6
    ensures TwoDiffer(S(k, b), S(k, b[2 := !b[2]][3 := !b[3]]))
  {
    hide S, SWord, Two, TwoDiffer, Word;
    var x := Word(b);
    SixWord(b);
    assert Six(x)[2 := !Six(x)[2]][3 := !Six(x)[3]] == Six(x ^ 12);
    hide Six;
    SBits(k, x);
    SBits(k, x ^ 12);
    WordsMeet(k, x, 12);
    TwoBits(SWord(k, x), SWord(k, x ^ 12));
  }

  lemma Separated(k: nat, a: Bits, b: Bits)
    requires k < 8 && |a| == 6 && |b| == 6
    requires var m := Word(a) ^ Word(b); Apart(Outer(m), Inner(m))
    ensures S(k, a) != S(k, b)
  {
    hide S, SWord, Six, Word, Outer, Inner, Apart;
    var x, y := Word(a), Word(b);
    SixWord(a);
    SixWord(b);
    SBits(k, x);
    SBits(k, y);
    assert x ^ (x ^ y) == y;
    WordsMeet(k, x, x ^ y);
    FourOneToOne(SWord(k, x), SWord(k, y));
  }

  /** With the outer two bits fixed a selection function is one-to-one: each row is a permutation of its 16 values. */
  lemma RowsArePermutations(k: nat, a: Bits, b: Bits)
    requires k < 8 && |a| == 6 && |b| == 6
    requires a != b && a[0] == b[0] && a[5] == b[5]
    ensures S(k, a) != S(k, b)
  {
    hide S;
    assert Word(a) ^ Word(b) != 0 by {
      hide Word;
      SixWord(a);
      SixWord(b);
    }
    Separated(k, a, b);
  }
}
