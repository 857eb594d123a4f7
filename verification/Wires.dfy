/**
 Permutations by table lookup: a permutation is a list of wires, and for every piece of the
 input a table gives, for every value of that piece, the output bits it drives.  The tables
 do_pc1, do_pc2, eperm32tab and efp of UFC-crypt are all built this way.
 */
module Wires {
  import opened Bits

  /** Bit `inp` of piece `piece` of the input drives bit `out` of the output. */
  datatype Wire = Wire(piece: nat, inp: nat, out: nat)

  ghost predicate Fits(ws: seq<Wire>, pieces: nat, n: nat, width: nat) {
    forall i :: 0 <= i < |ws| ==> ws[i].piece < pieces && ws[i].inp < n && ws[i].out < width
  }

  /** What table `p` holds for the value x. */
  ghost function Entry(ws: seq<Wire>, p: nat, x: Bits, width: nat): (r: Bits)
    requires forall i :: 0 <= i < |ws| ==> ws[i].inp < |x| && ws[i].out < width
    ensures |r| == width
  {
    if |ws| == 0 then Zeros(width)
    else
      var w, e := ws[|ws| - 1], Entry(ws[..|ws| - 1], p, x, width);
      if w.piece == p && x[w.inp] then e[w.out := true] else e
  }

  ghost predicate Drives(w: Wire, p: nat, x: Bits, q: nat)
    requires w.inp < |x|
  {
    w.piece == p && x[w.inp] && w.out == q
  }

  lemma {:induction false} EntryBit(ws: seq<Wire>, p: nat, x: Bits, width: nat, q: nat)
    requires forall i :: 0 <= i < |ws| ==> ws[i].inp < |x| && ws[i].out < width
    requires q < width
    ensures Entry(ws, p, x, width)[q] <==> exists i :: 0 <= i < |ws| && Drives(ws[i], p, x, q)
  {
    if |ws| > 0 {
      var pre := ws[..|ws| - 1];
      EntryBit(pre, p, x, width, q);
      if Entry(ws, p, x, width)[q] {
        if Entry(pre, p, x, width)[q] {
          var i :| 0 <= i < |pre| && Drives(pre[i], p, x, q);
          assert ws[i] == pre[i];
        } else {
          assert Drives(ws[|ws| - 1], p, x, q);
        }
      }
      if i :| 0 <= i < |ws| && Drives(ws[i], p, x, q) {
        if i < |pre| {
          assert pre[i] == ws[i];
        }
      }
    }
  }

  /** The lookups for all pieces, or-ed together. */
  ghost function Gather(ws: seq<Wire>, xs: seq<Bits>, n: nat, width: nat): (r: Bits)
    requires forall i :: 0 <= i < |ws| ==> ws[i].inp < n && ws[i].out < width
    requires forall p :: 0 <= p < |xs| ==> |xs[p]| == n
    ensures |r| == width
  {
    if |xs| == 0 then Zeros(width)
    else Or(Gather(ws, xs[..|xs| - 1], n, width), Entry(ws, |xs| - 1, xs[|xs| - 1], width))
  }

  /** The or of the lookups is the permutation: an output bit is set when a wire into it carries a set bit. */
  lemma {:induction false} GatherBit(ws: seq<Wire>, xs: seq<Bits>, n: nat, width: nat, q: nat)
    requires forall i :: 0 <= i < |ws| ==> ws[i].inp < n && ws[i].out < width
    requires forall p :: 0 <= p < |xs| ==> |xs[p]| == n
    requires q < width
    ensures Gather(ws, xs, n, width)[q] <==>
            exists i :: 0 <= i < |ws| && ws[i].piece < |xs| && Drives(ws[i], ws[i].piece, xs[ws[i].piece], q)
  {
    if |xs| > 0 {
      var pre, last := xs[..|xs| - 1], |xs| - 1;
      GatherBit(ws, pre, n, width, q);
      EntryBit(ws, last, xs[last], width, q);
      if Gather(ws, xs, n, width)[q] {
        if Gather(ws, pre, n, width)[q] {
          var i :| 0 <= i < |ws| && ws[i].piece < |pre| && Drives(ws[i], ws[i].piece, pre[ws[i].piece], q);
          assert pre[ws[i].piece] == xs[ws[i].piece];
        } else {
          var i :| 0 <= i < |ws| && Drives(ws[i], last, xs[last], q);
        }
      }
      if i :| 0 <= i < |ws| && ws[i].piece < |xs| && Drives(ws[i], ws[i].piece, xs[ws[i].piece], q) {
        if ws[i].piece < last {
          assert pre[ws[i].piece] == xs[ws[i].piece];
        } else {
          assert Drives(ws[i], last, xs[last], q);
        }
      }
    }
  }

  /** The loops that clear a table and then or in one wire after another. */
  method Fill(ws: seq<Wire>, pieces: nat, n: nat, width: nat) returns (t: array2<Bits>)
    requires Fits(ws, pieces, n, width)
    ensures fresh(t) && t.Length0 == pieces && t.Length1 == Pow2(n)
    ensures forall p, j :: 0 <= p < pieces && 0 <= j < Pow2(n) ==> t[p, j] == Entry(ws, p, ToBits(n, j), width)
  {
    t := new Bits[pieces, Pow2(n)]((p, j) => Zeros(width));
    for b := 0 to |ws|
      invariant forall p, j :: 0 <= p < pieces && 0 <= j < Pow2(n) ==> t[p, j] == Entry(ws[..b], p, ToBits(n, j), width)
    {
      var w := ws[b];
      assert ws[..b + 1][..b] == ws[..b];
      for j := 0 to Pow2(n)
        invariant forall p, i :: 0 <= p < pieces && 0 <= i < Pow2(n) ==>
          t[p, i] == Entry(if i < j then ws[..b + 1] else ws[..b], p, ToBits(n, i), width)
      {
        if ToBits(n, j)[w.inp] {
          t[w.piece, j] := t[w.piece, j][w.out := true];
        }
      }
    }
    assert ws[..|ws|] == ws;
  }
}
