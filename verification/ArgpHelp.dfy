/**
 The list of options that help is printed from (glibc-2.27/argp/argp-help.c: make_hol, hol_append, argp_hol,
 hol_entry_short_iterate).  It resolves shadowed short options by itself, with one string of all letters.
 */
module ArgpHelp {
  import opened ArgpOptions

  // ----- letters

  /** The letters that some options declare, each where it is declared first. */
  function Letters(os: seq<Opt>): seq<int> {
    if os == [] then [] else
      var p, o := Letters(os[..|os| - 1]), os[|os| - 1];
      if IsShort(o) && o.key !in p then p + [o.key] else p
  }

  /** The option at a position is the first one with its letter. */
  ghost predicate FirstUse(os: seq<Opt>, p: nat) {
    p < |os| && IsShort(os[p]) && forall q :: 0 <= q < p && IsShort(os[q]) ==> os[q].key != os[p].key
  }

  lemma LettersSnoc(os: seq<Opt>, o: Opt)
    ensures Letters(os + [o]) == Letters(os) + if IsShort(o) && o.key !in Letters(os) then [o.key] else []
  {
    hide IsShort;
    assert (os + [o])[..|os|] == os;
  }

  lemma {:induction false} LettersHave(os: seq<Opt>, ch: int)
    ensures ch in Letters(os) <==> exists p :: 0 <= p < |os| && IsShort(os[p]) && os[p].key == ch
  {
    hide IsShort;
    if os != [] {
      LettersHave(os[..|os| - 1], ch);
    }
  }

  lemma {:induction false} LettersDistinct(os: seq<Opt>, i: nat, j: nat)
    requires i < j < |Letters(os)|
    ensures Letters(os)[i] != Letters(os)[j]
  {
    hide IsShort;
    var p := Letters(os[..|os| - 1]);
    if j < |p| {
      LettersDistinct(os[..|os| - 1], i, j);
    } else {
      assert p[i] in p;
    }
  }

  /** A longer list only adds letters behind. */
  lemma {:induction false} LettersGrow(os: seq<Opt>, more: seq<Opt>)
    ensures Letters(os) <= Letters(os + more)
  {
    hide IsShort;
    if more == [] {
      assert os + more == os;
    } else {
      var m, o := more[..|more| - 1], more[|more| - 1];
      LettersGrow(os, m);
      assert os + more == (os + m) + [o];
      LettersSnoc(os + m, o);
    }
  }

  lemma LettersUnion(a: seq<Opt>, b: seq<Opt>, ch: int)
    ensures ch in Letters(a + b) <==> ch in Letters(a) || ch in Letters(b)
  {
    hide Letters, IsShort;
    LettersHave(a, ch);
    LettersHave(b, ch);
    LettersHave(a + b, ch);
    if ch in Letters(b) {
      var p :| 0 <= p < |b| && IsShort(b[p]) && b[p].key == ch;
      assert (a + b)[|a| + p] == b[p];
    }
    if ch in Letters(a) {
      var p :| 0 <= p < |a| && IsShort(a[p]) && a[p].key == ch;
      assert (a + b)[p] == a[p];
    }
  }

  lemma FirstUseIs(os: seq<Opt>, p: nat)
    requires p < |os|
    ensures FirstUse(os, p) <==> IsShort(os[p]) && os[p].key !in Letters(os[..p])
  {
    hide Letters, IsShort;
    LettersHave(os[..p], os[p].key);
  }

  /** The next letter of a string is an option's exactly when the option is the first with its letter. */
  lemma NextLetter(os: seq<Opt>, p: nat)
    requires p < |os|
    ensures var k := |Letters(os[..p])|;
            (IsShort(os[p]) && k < |Letters(os)| && Letters(os)[k] == os[p].key) <==> FirstUse(os, p)
  {
    hide IsShort, FirstUse, Letters;
    var before, o := os[..p], os[p];
    var k := |Letters(before)|;
    FirstUseIs(os, p);
    assert os == before + os[p..];
    LettersGrow(before, os[p..]);
    assert os == os[..p + 1] + os[p + 1..] && os[..p + 1] == before + [o];
    LettersSnoc(before, o);
    LettersGrow(os[..p + 1], os[p + 1..]);
    if IsShort(o) && o.key in Letters(before) {
      var i :| 0 <= i < k && Letters(before)[i] == o.key;
      if k < |Letters(os)| {
        LettersDistinct(os, i, k);
      }
    }
  }

  // ----- lists of entries

  /** An option with its aliases, and where its letters start in the string. */
  datatype Entry = Entry(opts: seq<Opt>, so: nat)

  datatype Hol = Hol(entries: seq<Entry>, short: seq<int>)

  function Flatten(es: seq<Entry>): seq<Opt> {
    if es == [] then [] else Flatten(es[..|es| - 1]) + es[|es| - 1].opts
  }

  lemma FlattenSnoc(es: seq<Entry>, e: Entry)
    ensures Flatten(es + [e]) == Flatten(es) + e.opts
  {
    assert (es + [e])[..|es|] == es;
  }

  ghost predicate Starts(es: seq<Entry>, i: nat)
    requires i < |es|
  {
    es[i].so == |Letters(Flatten(es[..i]))|
  }

  /** The list of some options: all of them in order, their letters, and where each entry's letters start. */
  ghost predicate HolOf(h: Hol, os: seq<Opt>) {
    Flatten(h.entries) == os && h.short == Letters(os) && forall i :: 0 <= i < |h.entries| ==> Starts(h.entries, i)
  }

  lemma HolSnoc(es: seq<Entry>, e: Entry)
    requires (forall i :: 0 <= i < |es| ==> Starts(es, i)) && e.so == |Letters(Flatten(es))|
    ensures forall i :: 0 <= i < |es + [e]| ==> Starts(es + [e], i)
  {
    forall i | 0 <= i < |es + [e]|
      ensures Starts(es + [e], i)
    {
      assert (es + [e])[..i] == es[..i];
      if i < |es| {
        assert Starts(es, i);
      } else {
        assert es[..i] == es;
      }
    }
  }

  method FindChar(ch: int, s: seq<int>) returns (found: bool)
    ensures found <==> ch in s
  {
    for i := 0 to |s|
      invariant ch !in s[..i]
    {
      if s[i] == ch {
        return true;
      }
    }
    return false;
  }

  /** An entry starts with an option that is not an alias, and all others in it are. */
  ghost predicate Shaped(e: Entry) {
    e.opts != [] && !e.opts[0].alias && forall i :: 1 <= i < |e.opts| ==> e.opts[i].alias
  }

  /** make_hol: the list of one table, which must not start with an alias. */
  method MakeHol(opts: seq<Opt>) returns (h: Hol)
    requires opts == [] || !opts[0].alias
    ensures HolOf(h, opts) && forall i :: 0 <= i < |h.entries| ==> Shaped(h.entries[i])
  {
    HolEmpty(opts);
    hide Letters, Flatten, HolOf;
    var entries: seq<Entry>, short: seq<int>, o := [], [], 0;
    while o < |opts|
      invariant 0 <= o <= |opts| && (o < |opts| ==> !opts[o].alias)
      invariant HolOf(Hol(entries, short), opts[..o]) && forall i :: 0 <= i < |entries| ==> Shaped(entries[i])
    {
      var n, start := 0, |short|;
      HolShort(Hol(entries, short), opts[..o]);
      n, short := FillEntry(opts, o, short);
      var e := Entry(opts[o..n], start);
      assert opts[..n] == opts[..o] + opts[o..n];
      HolMore(entries, opts[..o], e);
      entries, o := entries + [e], n;
    }
    assert opts[..o] == opts;
    h := Hol(entries, short);
  }

  lemma HolEmpty(opts: seq<Opt>)
    ensures HolOf(Hol([], []), opts[..0])
  {
    assert opts[..0] == [];
  }

  lemma HolShort(h: Hol, os: seq<Opt>)
    requires HolOf(h, os)
    ensures h.short == Letters(os)
  {}

  /** One more entry, whose letters start where the string ended. */
  lemma HolMore(es: seq<Entry>, os: seq<Opt>, e: Entry)
    requires HolOf(Hol(es, Letters(os)), os) && e.so == |Letters(os)|
    ensures HolOf(Hol(es + [e], Letters(os + e.opts)), os + e.opts)
  {
    hide Letters, Flatten;
    HolSnoc(es, e);
    FlattenSnoc(es, e);
  }

  /** The letters of an option and its aliases. */
  method FillEntry(opts: seq<Opt>, o: nat, short: seq<int>) returns (n: nat, so: seq<int>)
    requires o < |opts| && short == Letters(opts[..o]) && !opts[o].alias
    ensures o < n <= |opts| && so == Letters(opts[..n]) && (n < |opts| ==> !opts[n].alias) &&
      forall i :: o < i < n ==> opts[i].alias
  {
    hide Letters, IsShort;
    n, so := o, short;
    while n == o || (n < |opts| && opts[n].alias)
      invariant o <= n <= |opts| && so == Letters(opts[..n]) && forall i :: o < i < n ==> opts[i].alias
      decreases |opts| - n
    {
      LettersSnoc(opts[..n], opts[n]);
      assert opts[..n + 1] == opts[..n] + [opts[n]];
      if IsShort(opts[n]) {
        var found := FindChar(opts[n].key, so);
        if !found {
          so := so + [opts[n].key];
        }
      }
      n := n + 1;
    }
  }

  // ----- appending

  /** One entry of the second list: its letters that the first list does not have. */
  method AppendEntry(opts: seq<Opt>, holShort: seq<int>, moreShort: seq<int>, short: seq<int>, k: nat,
                     ghost a: seq<Opt>, ghost b: seq<Opt>, ghost at: nat)
      returns (so: seq<int>, j: nat)
    requires holShort == Letters(a) && moreShort == Letters(b) && at + |opts| <= |b| && opts == b[at..at + |opts|]
    requires short == Letters(a + b[..at]) && k == |Letters(b[..at])|
    ensures so == Letters(a + b[..at + |opts|]) && j == |Letters(b[..at + |opts|])|
  {
    hide Letters, IsShort, FirstUse;
    so, j := short, k;
    var n := 0;
    while n < |opts|
      invariant 0 <= n <= |opts| && so == Letters(a + b[..at + n]) && j == |Letters(b[..at + n])|
    {
      ghost var seen := b[..at + n];
      var o := opts[n];
      assert o == b[at + n];
      assert b[..at + n + 1] == seen + [o] && a + b[..at + n + 1] == (a + seen) + [o];
      LettersSnoc(seen, o);
      LettersSnoc(a + seen, o);
      LettersUnion(a, seen, o.key);
      NextLetter(b, at + n);
      FirstUseIs(b, at + n);
      if IsShort(o) && j < |moreShort| && moreShort[j] == o.key {
        var found := FindChar(o.key, holShort);
        if !found {
          so := so + [o.key];
        }
        j := j + 1;
      }
      n := n + 1;
    }
  }

  lemma FlattenAt(es: seq<Entry>, i: nat)
    requires i < |es|
    ensures var at := |Flatten(es[..i])|;
            at + |es[i].opts| == |Flatten(es[..i + 1])| <= |Flatten(es)| &&
                Flatten(es)[at..at + |es[i].opts|] == es[i].opts && Flatten(es)[..at] == Flatten(es[..i])
    ensures Flatten(es[..i + 1]) == Flatten(es)[..|Flatten(es[..i + 1])|]
  {
    FlattenPrefix(es, i + 1);
    assert es[..i + 1][..i] == es[..i];
  }

  lemma {:induction false} FlattenPrefix(es: seq<Entry>, i: nat)
    requires i <= |es|
    ensures Flatten(es[..i]) <= Flatten(es)
  {
    if i < |es| {
      var p := es[..|es| - 1];
      FlattenPrefix(p, i);
      assert p[..i] == es[..i];
    } else {
      assert es[..i] == es;
    }
  }

  /** hol_append: options of the first list shadow those of the second, and the result is the list of both. */
  method HolAppend(h: Hol, more: Hol, ghost a: seq<Opt>, ghost b: seq<Opt>) returns (r: Hol)
    requires HolOf(h, a) && HolOf(more, b)
    ensures HolOf(r, a + b)
  {
    if more.entries == [] {
      assert a + b == a;
      return h;
    }
    if h.entries == [] {
      assert a + b == b;
      return more;
    }
    var entries, short, k, i := h.entries, h.short, 0, 0;
    assert a + b[..0] == a && more.entries[..0] == [];
    while i < |more.entries|
      invariant 0 <= i <= |more.entries| && |Flatten(more.entries[..i])| <= |b|
      invariant var at := |Flatten(more.entries[..i])|;
        HolOf(Hol(entries, short), a + b[..at]) && k == |Letters(b[..at])|
    {
      entries, short, k := AppendStep(h, more, a, b, entries, short, k, i);
      i := i + 1;
    }
    assert more.entries[..i] == more.entries;
    assert b[..|b|] == b;
    r := Hol(entries, short);
  }

  method AppendStep(h: Hol, more: Hol, ghost a: seq<Opt>, ghost b: seq<Opt>, es: seq<Entry>, so: seq<int>, k: nat,
      i: nat)
      returns (entries: seq<Entry>, short: seq<int>, j: nat)
    requires h.short == Letters(a) && more.short == Letters(b) && Flatten(more.entries) == b && i < |more.entries|
    requires var at := |Flatten(more.entries[..i])|;
      at <= |b| && HolOf(Hol(es, so), a + b[..at]) && k == |Letters(b[..at])|
    ensures |Flatten(more.entries[..i + 1])| <= |b|
    ensures var at := |Flatten(more.entries[..i + 1])|;
      HolOf(Hol(entries, short), a + b[..at]) && j == |Letters(b[..at])|
  {
    hide Letters, Flatten, Starts, HolOf;
    HolShort(Hol(es, so), a + b[..|Flatten(more.entries[..i])|]);
    FlattenAt(more.entries, i);
    ghost var at := |Flatten(more.entries[..i])|;
    var opts, start := more.entries[i].opts, |so|;
    short, j := AppendEntry(opts, h.short, more.short, so, k, a, b, at);
    var e := Entry(opts, start);
    assert a + b[..at] + opts == a + b[..at + |opts|];
    HolMore(es, a + b[..at], e);
    entries := es + [e];
  }

  // ----- the whole tree

  /** All options of a tree, in preorder. */
  function AllOpts(a: Argp): seq<Opt>
    decreases a
  {
    Opts(a) + AllOptsAll(a.children)
  }

  function AllOptsAll(cs: seq<Argp>): seq<Opt>
    decreases cs
  {
    if cs == [] then [] else AllOptsAll(cs[..|cs| - 1]) + AllOpts(cs[|cs| - 1])
  }

  /** No table of the tree starts with an alias. */
  predicate Proper(a: Argp)
    decreases a
  {
    (Opts(a) == [] || !Opts(a)[0].alias) && ProperAll(a.children)
  }

  predicate ProperAll(cs: seq<Argp>)
    decreases cs
  {
    cs == [] || (ProperAll(cs[..|cs| - 1]) && Proper(cs[|cs| - 1]))
  }

  lemma {:induction false} ProperAt(cs: seq<Argp>, k: nat)
    requires ProperAll(cs) && k < |cs|
    ensures Proper(cs[k])
  {
    hide Proper;
    if k < |cs| - 1 {
      ProperAt(cs[..|cs| - 1], k);
    }
  }

  lemma AllOptsStep(cs: seq<Argp>, k: nat)
    requires k < |cs|
    ensures AllOptsAll(cs[..k + 1]) == AllOptsAll(cs[..k]) + AllOpts(cs[k])
  {
    hide AllOpts;
    assert cs[..k + 1][..k] == cs[..k];
  }

  lemma ProperSplit(a: Argp)
    requires Proper(a)
    ensures (Opts(a) == [] || !Opts(a)[0].alias) && ProperAll(a.children) &&
      AllOpts(a) == Opts(a) + AllOptsAll(a.children)
  {
    hide ProperAll, AllOptsAll;
  }

  /**
   argp_hol: the list of a whole tree has the letters of all its options, each where it is declared
   first in preorder.
   */
  method ArgpHol(a: Argp) returns (h: Hol)
    requires Proper(a)
    ensures HolOf(h, AllOpts(a))
    decreases a
  {
    hide Proper, ProperAll, AllOpts, AllOptsAll, HolOf;
    ProperSplit(a);
    h := MakeHol(Opts(a));
    h := AppendChildren(a.children, h, Opts(a));
  }

  /** Its loop over the children. */
  method AppendChildren(cs: seq<Argp>, start: Hol, ghost own: seq<Opt>) returns (h: Hol)
    requires ProperAll(cs) && HolOf(start, own)
    ensures HolOf(h, own + AllOptsAll(cs))
    decreases cs
  {
    NoOpts(cs, own);
    hide Proper, ProperAll, AllOpts, AllOptsAll, HolOf;
    h := start;
    var k := 0;
    while k < |cs|
      invariant 0 <= k <= |cs| && HolOf(h, own + AllOptsAll(cs[..k]))
    {
      ProperAt(cs, k);
      AllOptsStep(cs, k);
      var more := ArgpHol(cs[k]);
      h := HolAppend(h, more, own + AllOptsAll(cs[..k]), AllOpts(cs[k]));
      assert own + AllOptsAll(cs[..k]) + AllOpts(cs[k]) == own + AllOptsAll(cs[..k + 1]);
      k := k + 1;
    }
    assert cs[..k] == cs;
  }

  lemma NoOpts(cs: seq<Argp>, own: seq<Opt>)
    ensures own + AllOptsAll(cs[..0]) == own
  {
    assert cs[..0] == [];
  }

  // ----- iterating

  /** hol_entry_short_iterate: the options of an entry that get a letter are those that declare it first. */
  method ShortIterate(h: Hol, i: nat, ghost os: seq<Opt>) returns (hits: seq<bool>, letters: seq<int>)
    requires HolOf(h, os) && i < |h.entries|
    ensures |hits| == |h.entries[i].opts|
    ensures forall n :: 0 <= n < |hits| ==> (hits[n] <==> FirstUse(os, |Flatten(h.entries[..i])| + n))
    ensures Letters(Flatten(h.entries[..i + 1])) == Letters(Flatten(h.entries[..i])) + letters
  {
    hide Letters, Flatten, FirstUse;
    FlattenAt(h.entries, i);
    assert Starts(h.entries, i);
    hits, letters := IterateEntry(h.entries[i].opts, h.entries[i].so, h.short, os, |Flatten(h.entries[..i])|);
  }

  method IterateEntry(opts: seq<Opt>, start: nat, short: seq<int>, ghost os: seq<Opt>, ghost at: nat)
      returns (hits: seq<bool>, letters: seq<int>)
    requires short == Letters(os) && at + |opts| <= |os| && opts == os[at..at + |opts|] && start == |Letters(os[..at])|
    ensures |hits| == |opts| && forall n :: 0 <= n < |hits| ==> (hits[n] <==> FirstUse(os, at + n))
    ensures Letters(os[..at + |opts|]) == Letters(os[..at]) + letters
  {
    hide Letters, IsShort, FirstUse;
    var so, n := start, 0;
    hits, letters := [], [];
    while n < |opts|
      invariant 0 <= n <= |opts| && |hits| == n && so == |Letters(os[..at + n])|
      invariant forall k :: 0 <= k < n ==> (hits[k] <==> FirstUse(os, at + k))
      invariant Letters(os[..at + n]) == Letters(os[..at]) + letters
    {
      assert opts[n] == os[at + n];
      NextLetter(os, at + n);
      FirstUseIs(os, at + n);
      LettersSnoc(os[..at + n], os[at + n]);
      assert os[..at + n + 1] == os[..at + n] + [os[at + n]];
      var hit := IsShort(opts[n]) && so < |short| && short[so] == opts[n].key;
      if hit {
        so, letters := so + 1, letters + [opts[n].key];
      }
      hits := hits + [hit];
      n := n + 1;
    }
  }

  /** Over all entries, the letters that options get are the letters of the string, in order: each goes to exactly one
      option, the one that declares it first. */
  method IterateAll(h: Hol, ghost os: seq<Opt>) returns (letters: seq<int>)
    requires HolOf(h, os)
    ensures letters == h.short && forall i, j :: 0 <= i < j < |letters| ==> letters[i] != letters[j]
  {
    assert h.entries[..0] == [] && Letters(Flatten([])) == [];
    hide Letters, Flatten, HolOf, FirstUse;
    letters := [];
    for i := 0 to |h.entries|
      invariant letters == Letters(Flatten(h.entries[..i]))
    {
      var hits, more := ShortIterate(h, i, os);
      letters := letters + more;
    }
    assert h.entries[..|h.entries|] == h.entries;
    HolShort(h, os);
    HolAll(h, os);
    forall i, j | 0 <= i < j < |letters|
      ensures letters[i] != letters[j]
    {
      LettersDistinct(os, i, j);
    }
  }

  lemma HolAll(h: Hol, os: seq<Opt>)
    requires HolOf(h, os)
    ensures Flatten(h.entries) == os
  {}
}
