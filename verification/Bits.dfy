/**
 Machine words as their bits, most significant bit first: `w[0]` of a 64-bit word is
 2^63 and `w[63]` is 1.  The width is the length, so the same operations serve the
 32-bit and the 64-bit build.
 */
module Bits {

  type Bits = seq<bool>

  type Long = w: Bits | |w| == 64 witness Zeros(64)    // long64
  type Word = w: Bits | |w| == 32 witness Zeros(32)    // long32

  function Zeros(n: nat): (r: Bits)
    ensures |r| == n && forall i :: 0 <= i < n ==> !r[i]
  {
    seq(n, _ => false)
  }

  function Xor(a: Bits, b: Bits): (r: Bits)
    requires |a| == |b|
    ensures |r| == |a| && forall i :: 0 <= i < |a| ==> r[i] == (a[i] != b[i])
  {
    seq(|a|, i requires 0 <= i < |a| => a[i] != b[i])
  }

  function Or(a: Bits, b: Bits): (r: Bits)
    requires |a| == |b|
    ensures |r| == |a| && forall i :: 0 <= i < |a| ==> r[i] == (a[i] || b[i])
  {
    seq(|a|, i requires 0 <= i < |a| => a[i] || b[i])
  }

  function And(a: Bits, b: Bits): (r: Bits)
    requires |a| == |b|
    ensures |r| == |a| && forall i :: 0 <= i < |a| ==> r[i] == (a[i] && b[i])
  {
    seq(|a|, i requires 0 <= i < |a| => a[i] && b[i])
  }

  function Shl(a: Bits, n: nat): (r: Bits)
    requires n <= |a|
    ensures |r| == |a|
  {
    a[n..] + Zeros(n)
  }

  function Shr(a: Bits, n: nat): (r: Bits)
    requires n <= |a|
    ensures |r| == |a|
  {
    Zeros(n) + a[..|a| - n]
  }

  // ----- numbers

  function Pow2(n: nat): (p: nat)
    ensures p > 0
  {
    if n == 0 then 1 else 2 * Pow2(n - 1)
  }

  function Value(a: Bits): (v: nat)
    ensures v < Pow2(|a|)
  {
    if |a| == 0 then 0 else 2 * Value(a[..|a| - 1]) + (if a[|a| - 1] then 1 else 0)
  }

  /** The n low-order bits of v. */
  function ToBits(n: nat, v: nat): (r: Bits)
    ensures |r| == n
  {
    if n == 0 then [] else ToBits(n - 1, v / 2) + [v % 2 == 1]
  }

  lemma {:induction false} ToBitsValue(a: Bits)
    ensures ToBits(|a|, Value(a)) == a
  {
    if |a| > 0 {
      ToBitsValue(a[..|a| - 1]);
    }
  }

  lemma {:induction false} ValueToBits(n: nat, v: nat)
    requires v < Pow2(n)
    ensures Value(ToBits(n, v)) == v
  {
    if n > 0 {
      ValueToBits(n - 1, v / 2);
      assert ToBits(n, v)[..n - 1] == ToBits(n - 1, v / 2);
    }
  }

  lemma {:induction false} ToBitsZero(n: nat)
    ensures ToBits(n, 0) == Zeros(n)
  {
    if n > 0 {
      ToBitsZero(n - 1);
    }
  }

  function DropBits(v: nat, n: nat): nat {
    if n == 0 then v else DropBits(v / 2, n - 1)
  }

  lemma {:induction false} ToBitsSplit(m: nat, n: nat, v: nat)
    ensures ToBits(m + n, v) == ToBits(m, DropBits(v, n)) + ToBits(n, v)
  {
    if n > 0 {
      ToBitsSplit(m, n - 1, v / 2);
    } else {
      assert ToBits(m, v) + [] == ToBits(m, v);
    }
  }

  // ----- exclusive or

  lemma XorConcat(a: Bits, b: Bits, c: Bits, d: Bits)
    requires |a| == |c| && |b| == |d|
    ensures Xor(a + b, c + d) == Xor(a, c) + Xor(b, d)
  {}

  lemma XorCancels(a: Bits, b: Bits)
    requires |a| == |b|
    ensures Xor(Xor(a, b), b) == a
  {}
}
