/**
 The Feistel structure shared by the standard and the table-driven kernel, for any round
 function that keeps the width of its input.
 */
module Feistel {
  import opened Bits

  type RoundFunction = (Bits, Bits) -> Bits    // half block, key

  ghost predicate Keeps(f: RoundFunction, n: nat) {
    forall x, k {:trigger f(x, k)} :: |x| == n ==> |f(x, k)| == n
  }

  datatype Halves = Halves(l: Bits, r: Bits) {
    ghost predicate Is(n: nat) { |l| == n && |r| == n }
  }

  /** One round per key, each (L, R) to (R, L xor f(R, K)). */
  ghost function Rounds(f: RoundFunction, x: Halves, keys: seq<Bits>, n: nat): (y: Halves)
    requires Keeps(f, n) && x.Is(n)
    ensures y.Is(n)
    decreases |keys|
  {
    if |keys| == 0 then x else Rounds(f, Halves(x.r, Xor(x.l, f(x.r, keys[0]))), keys[1..], n)
  }

  /** All rounds, then the halves exchanged. */
  ghost function Run(f: RoundFunction, keys: seq<Bits>, x: Halves, n: nat): (y: Halves)
    requires Keeps(f, n) && x.Is(n)
    ensures y.Is(n)
  {
    var m := Rounds(f, x, keys, n);
    Halves(m.r, m.l)
  }

  ghost function Iterate(f: RoundFunction, keys: seq<Bits>, times: nat, x: Halves, n: nat): (y: Halves)
    requires Keeps(f, n) && x.Is(n)
    ensures y.Is(n)
    decreases times
  {
    if times == 0 then x else Iterate(f, keys, times - 1, Run(f, keys, x, n), n)
  }

  ghost function Reverse(keys: seq<Bits>): (r: seq<Bits>)
    ensures |r| == |keys|
    ensures forall i :: 0 <= i < |keys| ==> r[i] == keys[|keys| - 1 - i]
  {
    seq(|keys|, i requires 0 <= i < |keys| => keys[|keys| - 1 - i])
  }

  lemma ReverseTwice(keys: seq<Bits>)
    ensures Reverse(Reverse(keys)) == keys
  {}

  lemma {:induction false} RoundsConcat(f: RoundFunction, x: Halves, k1: seq<Bits>, k2: seq<Bits>, n: nat)
    requires Keeps(f, n) && x.Is(n)
    ensures Rounds(f, x, k1 + k2, n) == Rounds(f, Rounds(f, x, k1, n), k2, n)
    decreases |k1|
  {
    if |k1| == 0 {
      assert k1 + k2 == k2;
    } else {
      assert (k1 + k2)[1..] == k1[1..] + k2;
      RoundsConcat(f, Halves(x.r, Xor(x.l, f(x.r, k1[0]))), k1[1..], k2, n);
    }
  }

  lemma RoundsOne(f: RoundFunction, x: Halves, key: Bits, n: nat)
    requires Keeps(f, n) && x.Is(n)
    ensures Rounds(f, x, [key], n) == Halves(x.r, Xor(x.l, f(x.r, key)))
  {
    var y := Halves(x.r, Xor(x.l, f(x.r, key)));
    assert [key][1..] == [];
    assert Rounds(f, y, [], n) == y;
  }

  lemma {:induction false} RoundsUndo(f: RoundFunction, x: Halves, keys: seq<Bits>, n: nat)
    requires Keeps(f, n) && x.Is(n)
    ensures var m := Rounds(f, x, keys, n); Rounds(f, Halves(m.r, m.l), Reverse(keys), n) == Halves(x.r, x.l)
    decreases |keys|
  {
    if |keys| > 0 {
      var r' := Xor(x.l, f(x.r, keys[0]));
      var m := Rounds(f, x, keys, n);
      RoundsUndo(f, Halves(x.r, r'), keys[1..], n);
      assert Reverse(keys) == Reverse(keys[1..]) + [keys[0]];
      RoundsConcat(f, Halves(m.r, m.l), Reverse(keys[1..]), [keys[0]], n);
      XorCancels(x.l, f(x.r, keys[0]));
      RoundsOne(f, Halves(r', x.r), keys[0], n);
    }
  }

  /** Reversed keys undo a run, whatever the round function. */
  lemma RunUndo(f: RoundFunction, keys: seq<Bits>, x: Halves, n: nat)
    requires Keeps(f, n) && x.Is(n)
    ensures Run(f, Reverse(keys), Run(f, keys, x, n), n) == x
  {
    RoundsUndo(f, x, keys, n);
  }

  lemma {:induction false} IterateLast(f: RoundFunction, keys: seq<Bits>, times: nat, x: Halves, n: nat)
    requires Keeps(f, n) && x.Is(n)
    ensures Iterate(f, keys, times + 1, x, n) == Run(f, keys, Iterate(f, keys, times, x, n), n)
    decreases times
  {
    if times > 0 {
      IterateLast(f, keys, times - 1, Run(f, keys, x, n), n);
    }
  }

  /** As many iterations with reversed keys undo any number of iterations. */
  lemma {:induction false} IterateUndo(f: RoundFunction, keys: seq<Bits>, times: nat, x: Halves, n: nat)
    requires Keeps(f, n) && x.Is(n)
    ensures Iterate(f, Reverse(keys), times, Iterate(f, keys, times, x, n), n) == x
    decreases times
  {
    if times > 0 {
      var y := Iterate(f, keys, times - 1, x, n);
      IterateLast(f, keys, times - 1, x, n);
      RunUndo(f, keys, y, n);
      IterateUndo(f, keys, times - 1, x, n);
    }
  }
}
