/**
 The hash table of a catalog (glibc-2.27/catgets/gencat.c, write_out, and catgets.c): the search for its size, the
 collision chains, and the probe that looks a message up.
 */
module CatalogTable {
  import opened CatalogInput

  const UINT_MAX: nat := 4294967295

  datatype Entry = Entry(group: nat, msg: nat, text: Text)

  function EntriesOf(s: MessageSet): (r: seq<Entry>)
    ensures |r| == |s.messages|
    ensures forall j :: 0 <= j < |r| ==> r[j] == Entry(s.number, s.messages[j].number, s.messages[j].text)
  {
    seq(|s.messages|, j requires 0 <= j < |s.messages| => Entry(s.number, s.messages[j].number, s.messages[j].text))
  }

  /** All messages, in the order in which the nested loops visit them. */
  function Flat(sets: seq<MessageSet>): seq<Entry> {
    if sets == [] then [] else Flat(sets[..|sets| - 1]) + EntriesOf(sets[|sets| - 1])
  }

  lemma FlatStep(sets: seq<MessageSet>, i: nat)
    requires i < |sets|
    ensures Flat(sets[..i + 1]) == Flat(sets[..i]) + EntriesOf(sets[i])
  {
    assert sets[..i + 1][..i] == sets[..i];
  }

  // ----- loads

  function Bucket(e: Entry, size: nat): (b: nat)
    requires size > 0
    ensures b < size
  {
    (e.msg * e.group) % size
  }

  /** How many messages share a bucket. */
  ghost function Load(es: seq<Entry>, size: nat, b: nat): nat
    requires size > 0
  {
    if es == [] then 0 else Load(es[..|es| - 1], size, b) + if Bucket(es[|es| - 1], size) == b then 1 else 0
  }

  /** The number of planes a table of this size needs. */
  ghost function Depth(es: seq<Entry>, size: nat): (d: nat)
    requires size > 0
    ensures d >= 1
  {
    if es == [] then 1 else
      var l := Load(es, size, Bucket(es[|es| - 1], size));
      var d := Depth(es[..|es| - 1], size);
      if l > d then l else d
  }

  ghost predicate SomeLoad(es: seq<Entry>, size: nat, d: nat)
    requires size > 0
  {
    exists b :: Load(es, size, b) == d
  }

  /** It is the largest load, and at least one. */
  lemma {:induction false} DepthIsLargest(es: seq<Entry>, size: nat)
    requires size > 0
    ensures forall b :: Load(es, size, b) <= Depth(es, size)
    ensures Depth(es, size) == 1 || SomeLoad(es, size, Depth(es, size))
  {
    if es != [] {
      var p, last := es[..|es| - 1], Bucket(es[|es| - 1], size);
      DepthIsLargest(p, size);
      assert forall b :: Load(es, size, b) == Load(p, size, b) + if last == b then 1 else 0;
      if Depth(p, size) > 1 && Load(es, size, last) <= Depth(p, size) {
        var b :| Load(p, size, b) == Depth(p, size);
        SomeLoadAt(es, size, b);
      } else {
        SomeLoadAt(es, size, last);
      }
    }
  }

  lemma SomeLoadAt(es: seq<Entry>, size: nat, b: nat)
    requires size > 0
    ensures SomeLoad(es, size, Load(es, size, b))
  {}

  lemma LoadSnoc(es: seq<Entry>, e: Entry, size: nat, b: nat)
    requires size > 0
    ensures Load(es + [e], size, b) == Load(es, size, b) + if Bucket(e, size) == b then 1 else 0
  {
    assert (es + [e])[..|es|] == es;
  }

  lemma DepthSnoc(es: seq<Entry>, e: Entry, size: nat)
    requires size > 0
    ensures var l := Load(es + [e], size, Bucket(e, size)); Depth(es + [e], size) == if l > Depth(es, size) then l
      else Depth(es, size)
  {
    assert (es + [e])[..|es|] == es;
  }

  lemma {:induction false} LoadPrefix(p: seq<Entry>, q: seq<Entry>, size: nat, b: nat)
    requires size > 0
    ensures Load(p, size, b) <= Load(p + q, size, b)
  {
    if q == [] {
      assert p + q == p;
    } else {
      var q', e := q[..|q| - 1], q[|q| - 1];
      LoadPrefix(p, q', size, b);
      assert p + q == (p + q') + [e];
      LoadSnoc(p + q', e, size, b);
    }
  }

  ghost predicate Below(s: seq<Entry>, t: seq<Entry>, size: nat)
    requires size > 0
  {
    forall b :: Load(s, size, b) <= Load(t, size, b)
  }

  lemma DepthMonotone(s: seq<Entry>, t: seq<Entry>, size: nat)
    requires size > 0 && Below(s, t, size)
    ensures Depth(s, size) <= Depth(t, size)
  {
    DepthIsLargest(s, size);
    DepthIsLargest(t, size);
    if Depth(s, size) > 1 {
      var b :| Load(s, size, b) == Depth(s, size);
      assert Load(s, size, b) <= Load(t, size, b);
    }
  }

  lemma BelowSnoc(s: seq<Entry>, t: seq<Entry>, e: Entry, size: nat)
    requires size > 0 && Below(s, t, size)
    ensures Below(s + [e], t + [e], size)
  {
    forall b
      ensures Load(s + [e], size, b) <= Load(t + [e], size, b)
    {
      LoadSnoc(s, e, size, b);
      LoadSnoc(t, e, size, b);
      assert Load(s, size, b) <= Load(t, size, b);
    }
  }

  lemma BelowPrefix(s: seq<Entry>, t: seq<Entry>, q: seq<Entry>, size: nat)
    requires size > 0 && Below(s, t, size)
    ensures Below(s, t + q, size)
  {
    forall b
      ensures Load(s, size, b) <= Load(t + q, size, b)
    {
      LoadPrefix(t, q, size, b);
      assert Load(s, size, b) <= Load(t, size, b);
    }
  }

  // ----- the size search

  ghost predicate Counts(deep: seq<nat>, seen: seq<Entry>, size: nat) {
    size > 0 && |deep| == size && forall b :: 0 <= b < size ==> deep[b] == Load(seen, size, b)
  }

  lemma CountsSnoc(deep: seq<nat>, seen: seq<Entry>, size: nat, e: Entry)
    requires Counts(deep, seen, size)
    ensures var b := Bucket(e, size); Counts(deep[b := deep[b] + 1], seen + [e], size)
  {
    var b := Bucket(e, size);
    var deep' := deep[b := deep[b] + 1];
    forall c | 0 <= c < size
      ensures deep'[c] == Load(seen + [e], size, c)
    {
      LoadSnoc(seen, e, size, c);
    }
  }

  /** Counts one set.  Counting stops within this set, and only within it, once the size cannot win any more. */
  method CountSet(s: MessageSet, size: nat, limit: nat, deep: array<nat>, depth: nat, ghost seen: seq<Entry>,
      ghost all: seq<Entry>)
      returns (d: nat, ghost now: seq<Entry>)
    requires deep.Length == size && Counts(deep[..], seen, size) && depth == Depth(seen, size) && Below(seen, all, size)
    requires seen == all || depth * size > limit
    modifies deep
    ensures Counts(deep[..], now, size) && d == Depth(now, size) && Below(now, all + EntriesOf(s), size)
    ensures now == all + EntriesOf(s) || d * size > limit
  {
    hide Depth, Load, Below;
    ghost var es := EntriesOf(s);
    d, now := depth, seen;
    assert all + es[..0] == all;
    var j := 0;
    while j < |s.messages|
      invariant 0 <= j <= |s.messages|
      invariant Counts(deep[..], now, size) && d == Depth(now, size) && Below(now, all + es[..j], size)
      invariant now == all + es[..j] || d * size > limit
    {
      var idx := (s.messages[j].number * s.number) % size;
      ghost var e := es[j];
      assert all + es[..j + 1] == all + es[..j] + [e];
      BelowSnoc(now, all + es[..j], e, size);
      CountsSnoc(deep[..], now, size, e);
      DepthSnoc(now, e, size);
      ghost var d0, now0 := d, now;
      now := now + [e];
      deep[idx] := deep[idx] + 1;
      assert deep[..][idx] == Load(now, size, idx);
      if deep[idx] > d {
        d := deep[idx];
        MultiplyMonotone(d0, d, size);
        if d * size > limit {
          BelowPrefix(now, all + es[..j + 1], es[j + 1..], size);
          assert all + es[..j + 1] + es[j + 1..] == all + es;
          return;
        }
      }
      j := j + 1;
    }
    assert es[..j] == es;
  }

  lemma MultiplyMonotone(a: nat, b: nat, size: nat)
    requires a <= b
    ensures a * size <= b * size
  {}

  ghost function Cost(es: seq<Entry>, size: nat): nat
    requires size > 0
  {
    Depth(es, size) * size
  }

  /** The planes needed at one size: exact whenever that size does not exceed the limit, and above the limit whenever
      the true value is. */
  method Measure(sets: seq<MessageSet>, size: nat, limit: nat) returns (d: nat)
    requires 0 < size <= limit
    ensures d >= 1
    ensures d * size <= limit <==> Cost(Flat(sets), size) <= limit
    ensures d * size <= limit ==> d == Depth(Flat(sets), size) && d * size == Cost(Flat(sets), size)
  {
    var deep: array<nat> := new nat[size](_ => 0);
    d := 1;
    ghost var seen: seq<Entry> := [];
    var i := 0;
    while i < |sets|
      invariant 0 <= i <= |sets|
      invariant Counts(deep[..], seen, size) && d == Depth(seen, size) && Below(seen, Flat(sets[..i]), size)
      invariant seen == Flat(sets[..i]) || d * size > limit
    {
      FlatStep(sets, i);
      d, seen := CountSet(sets[i], size, limit, deep, d, seen, Flat(sets[..i]));
      i := i + 1;
    }
    assert sets[..i] == sets;
    DepthMonotone(seen, Flat(sets), size);
    MultiplyMonotone(d, Depth(Flat(sets), size), size);
  }

  /** Where the search starts: the first size at which fewer than five messages come to a place on average. */
  function StartSize(total: nat): (s: nat)
    ensures 5 * (s - 1) <= total < 5 * s
  {
    1 + total / 5
  }

  /** The size that the search is for: of the cheapest sizes from `start` on, the largest. */
  ghost predicate Best(es: seq<Entry>, start: nat, s: nat) {
    0 < start <= s && Cost(es, s) <= UINT_MAX && Cheapest(es, start, s)
  }

  ghost predicate Cheapest(es: seq<Entry>, start: nat, s: nat)
    requires 0 < start <= s
  {
    forall t :: t >= start ==> Cost(es, s) <= Cost(es, t) && (t > s ==> Cost(es, s) < Cost(es, t))
  }

  lemma BestUnique(es: seq<Entry>, start: nat, s: nat, t: nat)
    requires Best(es, start, s) && Best(es, start, t)
    ensures s == t
  {}

  /** The size search.  UINT_MAX stands for "nothing found", also when it is the size found. */
  method BestSize(sets: seq<MessageSet>, total: nat) returns (size: nat, depth: nat)
    ensures size > 0
    ensures forall s :: Best(Flat(sets), StartSize(total), s) && s != UINT_MAX ==>
      size == s && depth == Depth(Flat(sets), s)
    ensures (forall s :: Best(Flat(sets), StartSize(total), s) ==> s == UINT_MAX) ==> size == 1 && depth == 1
    ensures (exists t :: t >= StartSize(total) && Cost(Flat(sets), t) <= UINT_MAX) ==>
      exists s :: Best(Flat(sets), StartSize(total), s)
  {
    hide Cost;
    ghost var es := Flat(sets);
    hide Flat;
    var bestTotal, act := UINT_MAX, 1 + total / 5;
    size, depth := UINT_MAX, UINT_MAX;
    ghost var found := false;
    while act <= bestTotal
      invariant act >= StartSize(total) && bestTotal <= UINT_MAX
      invariant forall s :: StartSize(total) <= s < act ==> bestTotal <= Cost(es, s)
      invariant !found ==>
        size == UINT_MAX && bestTotal == UINT_MAX && forall s :: StartSize(total) <= s < act ==> UINT_MAX < Cost(es, s)
      invariant found ==> StartSize(total) <= size < act && Cost(es, size) == bestTotal && depth == Depth(es, size)
      invariant found ==> forall s :: size < s < act ==> bestTotal < Cost(es, s)
      decreases bestTotal + 1 - act
    {
      var d := Measure(sets, act, bestTotal);
      if d * act <= bestTotal {
        bestTotal, size, depth, found := d * act, act, d, true;
      }
      act := act + 1;
    }
    forall s | s >= act
      ensures bestTotal < Cost(es, s)
    {
      CostAtLeast(es, s);
    }
    if found {
      assert Best(es, StartSize(total), size);
      forall s | Best(es, StartSize(total), s)
        ensures s == size
      {
        BestUnique(es, StartSize(total), s, size);
      }
    }
    if size == UINT_MAX {
      size, depth := 1, 1;
    }
  }

  lemma CostAtLeast(es: seq<Entry>, s: nat)
    requires s > 0
    ensures Cost(es, s) >= s
  {
    MultiplyMonotone(1, Depth(es, s), s);
  }

  /** A best size exists as soon as any size fits. */
  lemma {:induction false} BestExists(es: seq<Entry>, start: nat, s: nat) returns (best: nat)
    requires 0 < start <= s && Cost(es, s) <= UINT_MAX
    ensures Best(es, start, best) && Cost(es, best) <= Cost(es, s)
    decreases Cost(es, s), UINT_MAX - s
  {
    hide Cost;
    CostAtLeast(es, s);
    if t :| t >= start && Cost(es, t) < Cost(es, s) {
      best := BestExists(es, start, t);
    } else if t :| t > s && Cost(es, t) == Cost(es, s) {
      CostAtLeast(es, t);
      best := BestExists(es, start, t);
    } else {
      best := s;
    }
  }

  lemma {:induction false} LoadAtMost(es: seq<Entry>, size: nat, b: nat)
    requires size > 0
    ensures Load(es, size, b) <= |es|
  {
    if es != [] {
      LoadAtMost(es[..|es| - 1], size, b);
    }
  }

  /** Catalogs of ordinary size always fit. */
  lemma OrdinaryFits(es: seq<Entry>, total: nat)
    requires (|es| + 1) * StartSize(total) < UINT_MAX
    ensures Cost(es, StartSize(total)) < UINT_MAX
  {
    var size := StartSize(total);
    DepthIsLargest(es, size);
    if Depth(es, size) > 1 {
      var b :| Load(es, size, b) == Depth(es, size);
      LoadAtMost(es, size, b);
    }
    MultiplyMonotone(Depth(es, size), |es| + 1, size);
  }

  /** The count of lines at which the search for an empty catalog finds the size that stands for "nothing found". */
  lemma SizeTaken()
    ensures StartSize(21474836470) == 4294967295 == UINT_MAX && Best([], 4294967295, 4294967295)
  {
    assert Cost([], UINT_MAX) == UINT_MAX;
    hide Cost;
    forall t | t > UINT_MAX
      ensures Cost([], t) > UINT_MAX
    {
      CostAtLeast([], t);
    }
  }
}
