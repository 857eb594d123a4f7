/**
 The Data Encryption Standard as FIPS PUB 46-3 describes it, on single bits: the reference
 that the table-driven implementation is proved against.
 */
module DesSpec {
  import opened Bits
  import opened Feistel

  // ----- the tables of the standard, counting bits from 1

  /** The initial permutation IP: row r of the table starts as below and descends by 8, as in 58, 50, 42, ..., 2. */
  function InitialPerm(i: nat): (r: nat)
    requires i < 64
    ensures 1 <= r <= 64
  {
    IpRow(i / 8) - 8 * (i % 8)
  }

  function IpRow(row: nat): (r: nat)
    requires row < 8
    ensures 57 <= r <= 64
  {
    if row == 0 then 58 else if row == 1 then 60 else if row == 2 then 62 else if row == 3 then 64 else
    if row == 4 then 57 else if row == 5 then 59 else if row == 6 then 61 else 63
  }

  /**
   The inverse initial permutation: column c of the table starts as below and descends by 1, as in
   40, 39, 38, ..., 33.
   */
  function FinalPerm(i: nat): (r: nat)
    requires i < 64
    ensures 1 <= r <= 64
  {
    FpColumn(i % 8) - i / 8
  }

  function FpColumn(col: nat): (r: nat)
    requires col < 8
    ensures 8 <= r <= 64
  {
    if col == 0 then 40 else if col == 1 then 8 else if col == 2 then 48 else if col == 3 then 16 else
    if col == 4 then 56 else if col == 5 then 24 else if col == 6 then 64 else 32
  }

  /** The bit selection table E: rows 32 1 2 3 4 5, 4 5 6 7 8 9, ..., 28 29 30 31 32 1. */
  function Esel(i: nat): (r: nat)
    requires i < 48
    ensures 1 <= r <= 32
  {
    var n := 4 * (i / 6) + i % 6;
    if n == 0 then 32 else if n == 33 then 1 else n
  }

  /** The permutation P. */
  function Perm32(i: nat): (r: nat)
    requires i < 32
    ensures 1 <= r <= 32
  {
    if i == 0 then 16 else if i == 1 then 7 else if i == 2 then 20 else if i == 3 then 21 else
    if i == 4 then 29 else if i == 5 then 12 else if i == 6 then 28 else if i == 7 then 17 else
    if i == 8 then 1 else if i == 9 then 15 else if i == 10 then 23 else if i == 11 then 26 else
    if i == 12 then 5 else if i == 13 then 18 else if i == 14 then 31 else if i == 15 then 10 else
    if i == 16 then 2 else if i == 17 then 8 else if i == 18 then 24 else if i == 19 then 14 else
    if i == 20 then 32 else if i == 21 then 27 else if i == 22 then 3 else if i == 23 then 9 else
    if i == 24 then 19 else if i == 25 then 13 else if i == 26 then 30 else if i == 27 then 6 else
    if i == 28 then 22 else if i == 29 then 11 else if i == 30 then 4 else 25
  }

  /** Permuted choice 1; it never selects a parity bit. */
  function Pc1(i: nat): (r: nat)
    requires i < 56
    ensures 1 <= r <= 64
    ensures r % 8 != 0
  {
    if i == 0 then 57 else if i == 1 then 49 else if i == 2 then 41 else if i == 3 then 33 else
    if i == 4 then 25 else if i == 5 then 17 else if i == 6 then 9 else if i == 7 then 1 else
    if i == 8 then 58 else if i == 9 then 50 else if i == 10 then 42 else if i == 11 then 34 else
    if i == 12 then 26 else if i == 13 then 18 else if i == 14 then 10 else if i == 15 then 2 else
    if i == 16 then 59 else if i == 17 then 51 else if i == 18 then 43 else if i == 19 then 35 else
    if i == 20 then 27 else if i == 21 then 19 else if i == 22 then 11 else if i == 23 then 3 else
    if i == 24 then 60 else if i == 25 then 52 else if i == 26 then 44 else if i == 27 then 36 else
    if i == 28 then 63 else if i == 29 then 55 else if i == 30 then 47 else if i == 31 then 39 else
    if i == 32 then 31 else if i == 33 then 23 else if i == 34 then 15 else if i == 35 then 7 else
    if i == 36 then 62 else if i == 37 then 54 else if i == 38 then 46 else if i == 39 then 38 else
    if i == 40 then 30 else if i == 41 then 22 else if i == 42 then 14 else if i == 43 then 6 else
    if i == 44 then 61 else if i == 45 then 53 else if i == 46 then 45 else if i == 47 then 37 else
    if i == 48 then 29 else if i == 49 then 21 else if i == 50 then 13 else if i == 51 then 5 else
    if i == 52 then 28 else if i == 53 then 20 else if i == 54 then 12 else 4
  }

  /** Permuted choice 2; each half of the result comes from one half of the input. */
  function Pc2(i: nat): (r: nat)
    requires i < 48
    ensures 1 <= r <= 56
    ensures i < 24 <==> r <= 28
  {
    if i == 0 then 14 else if i == 1 then 17 else if i == 2 then 11 else if i == 3 then 24 else
    if i == 4 then 1 else if i == 5 then 5 else if i == 6 then 3 else if i == 7 then 28 else
    if i == 8 then 15 else if i == 9 then 6 else if i == 10 then 21 else if i == 11 then 10 else
    if i == 12 then 23 else if i == 13 then 19 else if i == 14 then 12 else if i == 15 then 4 else
    if i == 16 then 26 else if i == 17 then 8 else if i == 18 then 16 else if i == 19 then 7 else
    if i == 20 then 27 else if i == 21 then 20 else if i == 22 then 13 else if i == 23 then 2 else
    if i == 24 then 41 else if i == 25 then 52 else if i == 26 then 31 else if i == 27 then 37 else
    if i == 28 then 47 else if i == 29 then 55 else if i == 30 then 30 else if i == 31 then 40 else
    if i == 32 then 51 else if i == 33 then 45 else if i == 34 then 33 else if i == 35 then 48 else
    if i == 36 then 44 else if i == 37 then 49 else if i == 38 then 39 else if i == 39 then 56 else
    if i == 40 then 34 else if i == 41 then 53 else if i == 42 then 46 else if i == 43 then 42 else
    if i == 44 then 50 else if i == 45 then 36 else if i == 46 then 29 else 32
  }

  /** The left shifts of the key schedule. */
  function Rots(i: nat): (r: nat)
    requires i < 16
    ensures r == 1 || r == 2
  {
    if i == 0 then 1 else if i == 1 then 1 else if i == 2 then 2 else if i == 3 then 2 else
    if i == 4 then 2 else if i == 5 then 2 else if i == 6 then 2 else if i == 7 then 2 else
    if i == 8 then 1 else if i == 9 then 2 else if i == 10 then 2 else if i == 11 then 2 else
    if i == 12 then 2 else if i == 13 then 2 else if i == 14 then 2 else 1
  }

  /** Row `row` of selection function k, counted from 0: a hexadecimal digit for each column. */
  function SboxRow(k: nat, row: nat): bv64
    requires k < 8 && row < 4
  {
    if k == 0 then (if row == 0 then 0xE4D12FB83A6C5907 else if row == 1 then 0x0F74E2D1A6CB9538
      else if row == 2 then 0x41E8D62BFC973A50 else 0xFC8249175B3EA06D) else
    if k == 1 then (if row == 0 then 0xF18E6B34972DC05A else if row == 1 then 0x3D47F28EC01A69B5
      else if row == 2 then 0x0E7BA4D158C6932F else 0xD8A13F42B67C05E9) else
    if k == 2 then (if row == 0 then 0xA09E63F51DC7B428 else if row == 1 then 0xD709346A285ECBF1
      else if row == 2 then 0xD6498F30B12C5AE7 else 0x1AD069874FE3B52C) else
    if k == 3 then (if row == 0 then 0x7DE3069A1285BC4F else if row == 1 then 0xD8B56F03472C1AE9
      else if row == 2 then 0xA690CB7DF13E5284 else 0x3F06A1D8945BC72E) else
    if k == 4 then (if row == 0 then 0x2C417AB6853FD0E9 else if row == 1 then 0xEB2C47D150FA3986
      else if row == 2 then 0x421BAD78F9C5630E else 0xB8C71E2D6F09A453) else
    if k == 5 then (if row == 0 then 0xC1AF92680D34E75B else if row == 1 then 0xAF427C9561DE0B38
      else if row == 2 then 0x9EF528C3704A1DB6 else 0x432C95FABE17608D) else
    if k == 6 then (if row == 0 then 0x4B2EF08D3C975A61 else if row == 1 then 0xD0B7491AE35C2F86
      else if row == 2 then 0x14BDC37EAF680592 else 0x6BD814A7950FE23C) else
    (if row == 0 then 0xD2846FB1A93E50C7 else if row == 1 then 0x1FD8A374C56B0E92
      else if row == 2 then 0x7B419CE206ADF358 else 0x21E74A8DFC90356B)
  }

  /** The digit of column c, counted from the left. */
  function Column(w: bv64, c: nat): (v: nat)
    requires c < 16
    ensures v < 16
  {
    (if c == 0 then w >> 60 else if c == 1 then (w >> 56) & 15 else if c == 2 then (w >> 52) & 15
    else if c == 3 then (w >> 48) & 15 else if c == 4 then (w >> 44) & 15 else if c == 5 then (w >> 40) & 15
    else if c == 6 then (w >> 36) & 15 else if c == 7 then (w >> 32) & 15 else if c == 8 then (w >> 28) & 15
    else if c == 9 then (w >> 24) & 15 else if c == 10 then (w >> 20) & 15 else if c == 11 then (w >> 16) & 15
    else if c == 12 then (w >> 12) & 15 else if c == 13 then (w >> 8) & 15 else if c == 14 then (w >> 4) & 15
    else w & 15) as bv4 as nat
  }

  // ----- enciphering

  function Ip(b: Bits): (r: Bits)
    requires |b| == 64
    ensures |r| == 64 && forall i :: 0 <= i < 64 ==> r[i] == b[InitialPerm(i) - 1]
  {
    seq(64, i requires 0 <= i < 64 => b[InitialPerm(i) - 1])
  }

  function Fp(b: Bits): (r: Bits)
    requires |b| == 64
    ensures |r| == 64 && forall i :: 0 <= i < 64 ==> r[i] == b[FinalPerm(i) - 1]
  {
    seq(64, i requires 0 <= i < 64 => b[FinalPerm(i) - 1])
  }

  function E(h: Bits): (r: Bits)
    requires |h| == 32
    ensures |r| == 48 && forall i :: 0 <= i < 48 ==> r[i] == h[Esel(i) - 1]
  {
    seq(48, i requires 0 <= i < 48 => h[Esel(i) - 1])
  }

  function P(h: Bits): (r: Bits)
    requires |h| == 32
    ensures |r| == 32 && forall i :: 0 <= i < 32 ==> r[i] == h[Perm32(i) - 1]
  {
    seq(32, i requires 0 <= i < 32 => h[Perm32(i) - 1])
  }

  /** Selection function k on six bits: the outer two choose the row, the inner four the column. */
  function S(k: nat, x: Bits): (r: Bits)
    requires k < 8 && |x| == 6
    ensures |r| == 4
  {
    var row, col := (if x[0] then 2 else 0) + (if x[5] then 1 else 0), Value(x[1..5]);
    assert Pow2(4) == 16;
    ToBits(4, Column(SboxRow(k, row), col))
  }

  /** Selection functions k and above on the remaining groups of six bits. */
  function SBoxes(k: nat, x: Bits): (r: Bits)
    requires k <= 8 && |x| == 6 * (8 - k)
    ensures |r| == 4 * (8 - k)
    decreases 8 - k
  {
    if k == 8 then [] else S(k, x[..6]) + SBoxes(k + 1, x[6..])
  }

  function F(r: Bits, key: Bits): (h: Bits)
    requires |r| == 32 && |key| == 48
    ensures |h| == 32
  {
    P(SBoxes(0, Xor(E(r), key)))
  }

  /** f, with zeros where the standard does not define it. */
  function RoundF(r: Bits, key: Bits): Bits {
    if |r| == 32 && |key| == 48 then F(r, key) else Zeros(|r|)
  }

  lemma RoundFKeeps()
    ensures Keeps(RoundF, 32)
  {
    hide F;
  }

  /** The halves of a block after the initial permutation. */
  ghost function Split(block: Bits): (x: Halves)
    requires |block| == 64
    ensures x.Is(32)
  {
    var b := Ip(block);
    Halves(b[..32], b[32..])
  }

  /** The block of which they are the halves before the final permutation. */
  ghost function Merge(x: Halves): (r: Bits)
    requires x.Is(32)
    ensures |r| == 64
  {
    Fp(x.l + x.r)
  }

  /** Enciphering with round function f: IP, a round per key, the halves exchanged, the inverse of IP. */
  ghost function CipherWith(f: RoundFunction, keys: seq<Bits>, block: Bits): (r: Bits)
    requires Keeps(f, 32) && |block| == 64
    ensures |r| == 64
  {
    Merge(Run(f, keys, Split(block), 32))
  }

  /** Enciphering as the standard has it. */
  ghost function Cipher(keys: seq<Bits>, block: Bits): (r: Bits)
    requires |block| == 64
    ensures |r| == 64
  {
    RoundFKeeps();
    CipherWith(RoundF, keys, block)
  }

  // ----- the key schedule

  function RotateLeft(c: Bits, n: nat): (r: Bits)
    requires n <= |c|
    ensures |r| == |c|
  {
    c[n..] + c[..n]
  }

  /** One half of the permuted key after n rounds of shifts. */
  function Shifted(c: Bits, n: nat): (r: Bits)
    requires |c| == 28 && n <= 16
    ensures |r| == 28
  {
    if n == 0 then c else RotateLeft(Shifted(c, n - 1), Rots(n - 1))
  }

  function PermutedChoice1(key: Bits): (r: Bits)
    requires |key| == 64
    ensures |r| == 56 && forall i :: 0 <= i < 56 ==> r[i] == key[Pc1(i) - 1]
  {
    seq(56, i requires 0 <= i < 56 => key[Pc1(i) - 1])
  }

  function PermutedChoice2(cd: Bits): (r: Bits)
    requires |cd| == 56
    ensures |r| == 48 && forall i :: 0 <= i < 48 ==> r[i] == cd[Pc2(i) - 1]
  {
    seq(48, i requires 0 <= i < 48 => cd[Pc2(i) - 1])
  }

  /** The key of round n, counted from 0. */
  function RoundKey(key: Bits, n: nat): (k: Bits)
    requires |key| == 64 && n < 16
    ensures |k| == 48
  {
    var cd := PermutedChoice1(key);
    PermutedChoice2(Shifted(cd[..28], n + 1) + Shifted(cd[28..], n + 1))
  }

  ghost function KeySchedule(key: Bits): (keys: seq<Bits>)
    requires |key| == 64
    ensures |keys| == 16
    ensures forall n :: 0 <= n < 16 ==> keys[n] == RoundKey(key, n)
  {
    seq(16, n requires 0 <= n < 16 => RoundKey(key, n))
  }

  // ----- deciphering

  lemma PermIndex(i: nat)
    requires i < 64
    ensures FinalPerm(InitialPerm(i) - 1) == i + 1 && InitialPerm(FinalPerm(i) - 1) == i + 1
  {
    var a, b := i / 8, i % 8;
    var n, e := InitialPerm(i) - 1, IpRow(a) - 57;
    assert n == 8 * (7 - b) + e && n / 8 == 7 - b && n % 8 == e;
    assert FpColumn(e) == 8 * a + 8;
    var m, g := FinalPerm(i) - 1, FpColumn(b) / 8 - 1;
    assert FpColumn(b) == 8 * g + 8;
    assert m == 8 * g + (7 - a) && m / 8 == g && m % 8 == 7 - a;
    assert IpRow(g) == 57 + b;
  }

  lemma PermsInverse(b: Bits)
    requires |b| == 64
    ensures Ip(Fp(b)) == b && Fp(Ip(b)) == b
  {
    hide InitialPerm, FinalPerm, Ip, Fp;
    var u, v := Ip(Fp(b)), Fp(Ip(b));
    forall i | 0 <= i < 64
      ensures u[i] == b[i] && v[i] == b[i]
    {
      PermIndex(i);
    }
  }

  lemma SplitMerge(x: Halves)
    requires x.Is(32)
    ensures Split(Merge(x)) == x
  {
    hide Ip, Fp;
    PermsInverse(x.l + x.r);
  }

  lemma MergeSplit(block: Bits)
    requires |block| == 64
    ensures Merge(Split(block)) == block
  {
    hide Ip, Fp;
    PermsInverse(block);
    var b := Ip(block);
    assert b[..32] + b[32..] == b;
  }

  /**
   Deciphering, which takes the keys in reverse order, undoes enciphering, whatever the round
   function and the keys.
   */
  lemma CipherUndo(f: RoundFunction, keys: seq<Bits>, block: Bits)
    requires Keeps(f, 32) && |block| == 64
    ensures CipherWith(f, Reverse(keys), CipherWith(f, keys, block)) == block
  {
    hide Run, Split, Merge, Keeps;
    var x := Split(block);
    SplitMerge(Run(f, keys, x, 32));
    RunUndo(f, keys, x, 32);
    MergeSplit(block);
  }

  lemma Restores(keys: seq<Bits>, block: Bits)
    requires |block| == 64
    ensures Cipher(Reverse(keys), Cipher(keys, block)) == block
  {
    hide CipherWith, RoundF, Keeps;
    RoundFKeeps();
    CipherUndo(RoundF, keys, block);
  }

  /** n encipherings in a row. */
  ghost function CipherTimes(f: RoundFunction, keys: seq<Bits>, n: nat, block: Bits): (r: Bits)
    requires Keeps(f, 32) && |block| == 64
    ensures |r| == 64
  {
    if n == 0 then block else CipherWith(f, keys, CipherTimes(f, keys, n - 1, block))
  }

  /** The permutations between consecutive encipherings cancel, so one of each is enough. */
  lemma {:induction false} PermuteOnce(f: RoundFunction, keys: seq<Bits>, n: nat, block: Bits)
    requires Keeps(f, 32) && |block| == 64
    ensures CipherTimes(f, keys, n, block) == Merge(Iterate(f, keys, n, Split(block), 32))
  {
    hide Run, Split, Merge, Keeps;
    if n == 0 {
      MergeSplit(block);
    } else {
      PermuteOnce(f, keys, n - 1, block);
      SplitMerge(Iterate(f, keys, n - 1, Split(block), 32));
      IterateLast(f, keys, n - 1, Split(block), 32);
    }
  }
}
