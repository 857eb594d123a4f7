/**
 Flattening a tree of option tables into getopt tables (glibc-2.27/argp/argp-parse.c: calc_sizes, convert_options,
 parser_convert and the allocation in parser_init).
 */
module ArgpConvert {
  import opened Optional
  import opened ArgpOptions

  // ----- sizes

  /** The number of entries in the tables of some groups. */
  function SumOpts(gs: seq<Argp>): nat {
    if gs == [] then 0 else SumOpts(gs[..|gs| - 1]) + |Opts(gs[|gs| - 1])|
  }

  /** The number of child input slots that some groups use. */
  function SumInputs(gs: seq<Argp>): nat {
    if gs == [] then 0 else SumInputs(gs[..|gs| - 1]) + |gs[|gs| - 1].children|
  }

  /** The number of children in a whole tree. */
  function ChildCount(a: Argp): nat
    decreases a
  {
    ChildCountAll(a.children)
  }

  function ChildCountAll(cs: seq<Argp>): nat
    decreases cs
  {
    if cs == [] then 0 else ChildCountAll(cs[..|cs| - 1]) + ChildCount(cs[|cs| - 1]) + 1
  }

  /**
   Where a group hangs: the number of the group it is a child of, if that is one, and its place
   among the children.
   */
  datatype Place = Place(parent: Option<nat>, index: nat)

  /** The places of the groups of a tree, in preorder; `base` is the number of its first group. */
  function Places(a: Argp, at: Place, base: nat): seq<Place>
    decreases a
  {
    if HasGroup(a) then [at] + PlacesAll(a.children, Some(base), base + 1) else PlacesAll(a.children, None, base)
  }

  function PlacesAll(cs: seq<Argp>, parent: Option<nat>, base: nat): seq<Place>
    decreases cs
  {
    if cs == [] then [] else
      var p, k := cs[..|cs| - 1], |cs| - 1;
      PlacesAll(p, parent, base) + Places(cs[k], Place(parent, k), base + |GroupsAll(p)|)
  }

  lemma PlacesStep(cs: seq<Argp>, parent: Option<nat>, base: nat, k: nat)
    requires k < |cs|
    ensures PlacesAll(cs[..k + 1], parent, base)
            == PlacesAll(cs[..k], parent, base) + Places(cs[k], Place(parent, k), base + |GroupsAll(cs[..k])|)
  {
    hide Places, GroupsAll;
    assert cs[..k + 1][..k] == cs[..k];
  }

  lemma {:induction false} OptsAppend(a: seq<Argp>, b: seq<Argp>)
    ensures SumOpts(a + b) == SumOpts(a) + SumOpts(b)
  {
    if b == [] {
      assert a + b == a;
    } else {
      OptsAppend(a, b[..|b| - 1]);
      assert (a + b)[..|a + b| - 1] == a + b[..|b| - 1];
    }
  }

  lemma {:induction false} InputsAppend(a: seq<Argp>, b: seq<Argp>)
    ensures SumInputs(a + b) == SumInputs(a) + SumInputs(b)
  {
    if b == [] {
      assert a + b == a;
    } else {
      InputsAppend(a, b[..|b| - 1]);
      assert (a + b)[..|a + b| - 1] == a + b[..|b| - 1];
    }
  }

  lemma GroupsStep(cs: seq<Argp>, k: nat)
    requires k < |cs|
    ensures GroupsAll(cs[..k + 1]) == GroupsAll(cs[..k]) + Groups(cs[k])
    ensures ChildCountAll(cs[..k + 1]) == ChildCountAll(cs[..k]) + ChildCount(cs[k]) + 1
  {
    hide Groups, ChildCount;
    assert cs[..k + 1][..k] == cs[..k];
  }

  /** No tree needs more child inputs than it has children. */
  lemma {:induction false} InputsAtMost(a: Argp)
    ensures SumInputs(Groups(a)) <= ChildCount(a)
    decreases a
  {
    InputsAtMostAll(a.children);
    InputsAppend(if HasGroup(a) then [a] else [], GroupsAll(a.children));
  }

  lemma {:induction false} InputsAtMostAll(cs: seq<Argp>)
    ensures SumInputs(GroupsAll(cs)) + |cs| <= ChildCountAll(cs)
    decreases cs
  {
    if cs != [] {
      InputsAtMostAll(cs[..|cs| - 1]);
      InputsAtMost(cs[|cs| - 1]);
      InputsAppend(GroupsAll(cs[..|cs| - 1]), Groups(cs[|cs| - 1]));
    }
  }

  lemma {:induction false} TextAtMost(opts: seq<Opt>, n: nat)
    requires n <= |opts|
    ensures |ShortText(opts, n)| <= 3 * n
  {
    if n > 0 {
      TextAtMost(opts, n - 1);
    }
  }

  lemma {:induction false} ShortAtMost(gs: seq<Argp>)
    ensures |ShortOf(gs)| <= 3 * SumOpts(gs)
  {
    if gs != [] {
      ShortAtMost(gs[..|gs| - 1]);
      TextAtMost(Opts(gs[|gs| - 1]), |Opts(gs[|gs| - 1])|);
    }
  }

  datatype Sizes = Sizes(short: nat, long: nat, groups: nat, inputs: nat)

  ghost predicate SizesFor(s: Sizes, gs: seq<Argp>, children: nat, t: Sizes) {
    t == Sizes(s.short + 3 * SumOpts(gs), s.long + SumOpts(gs), s.groups + |gs|, s.inputs + children)
  }

  /** calc_sizes: counts the groups, the entries of their tables and all children. */
  method CalcSizes(a: Argp, s: Sizes) returns (t: Sizes)
    ensures SizesFor(s, Groups(a), ChildCount(a), t)
    decreases a
  {
    t := s;
    if a.options.Some? || a.parser {
      t := t.(groups := t.groups + 1);
      if a.options.Some? {
        var numOpts := |a.options.value|;
        t := t.(short := t.short + numOpts * 3, long := t.long + numOpts);
      }
    }
    OwnGroup(a);
    OptsAppend(if HasGroup(a) then [a] else [], GroupsAll(a.children));
    hide Groups, GroupsAll, SumOpts, ChildCount, ChildCountAll;
    t := CalcChildren(a.children, t);
  }

  lemma OwnGroup(a: Argp)
    ensures Groups(a) == (if HasGroup(a) then [a] else []) + GroupsAll(a.children) &&
      ChildCount(a) == ChildCountAll(a.children)
    ensures SumOpts(if HasGroup(a) then [a] else []) == |Opts(a)|
  {
    hide GroupsAll, ChildCountAll;
    assert [a][..0] == [];
  }

  /** Its loop over the children. */
  method CalcChildren(cs: seq<Argp>, s: Sizes) returns (t: Sizes)
    ensures SizesFor(s, GroupsAll(cs), ChildCountAll(cs), t)
    decreases cs
  {
    t := s;
    var k := 0;
    assert cs[..0] == [] && SizesFor(s, GroupsAll([]), ChildCountAll([]), s);
    hide Groups, GroupsAll, SumOpts, ChildCount, ChildCountAll;
    while k < |cs|
      invariant 0 <= k <= |cs|
      invariant SizesFor(s, GroupsAll(cs[..k]), ChildCountAll(cs[..k]), t)
    {
      GroupsStep(cs, k);
      OptsAppend(GroupsAll(cs[..k]), Groups(cs[k]));
      t := CalcSizes(cs[k], t);
      t := t.(inputs := t.inputs + 1);
      k := k + 1;
    }
    assert cs[..k] == cs;
  }

  // ----- the long options

  ghost predicate Declares(gs: seq<Argp>, g: nat, i: nat, name: string) {
    g < |gs| && i < |Opts(gs[g])| && DeclaresLong(Opts(gs[g]), i, name)
  }

  ghost predicate Before(g: nat, i: nat, h: nat, k: nat) {
    g < h || (g == h && i < k)
  }

  /** The first declaration of a name, in preorder and then in table order. */
  ghost predicate First(gs: seq<Argp>, g: nat, i: nat, name: string) {
    Declares(gs, g, i, name) && forall h, k :: Declares(gs, h, k, name) ==> !Before(h, k, g, i)
  }

  /** The long option of entry n of a table, in group g. */
  function EntryOf(opts: seq<Opt>, n: nat, g: nat): Long
    requires n < |opts|
  {
    Long(opts[n].name, ArgOf(opts[Real(opts, n)]), Pack(g, KeyOf(opts, n)))
  }

  ghost predicate HasName(table: seq<Long>, name: string) {
    exists j :: 0 <= j < |table| && table[j].name == Some(name)
  }

  /** A table entry comes from the first declaration of its name, before position (m, n). */
  ghost predicate Justified(gs: seq<Argp>, m: nat, n: nat, e: Long, g: nat, i: nat) {
    e.name.Some? && First(gs, g, i, e.name.value) && Before(g, i, m, n) && e == EntryOf(Opts(gs[g]), i, g)
  }

  ghost predicate Sourced(gs: seq<Argp>, m: nat, n: nat, e: Long) {
    exists g, i :: Justified(gs, m, n, e, g, i)
  }

  /** The long options of everything before position (m, n): one entry for each name declared there. */
  ghost predicate TableFor(gs: seq<Argp>, m: nat, n: nat, table: seq<Long>) {
    && (forall j :: 0 <= j < |table| ==> Sourced(gs, m, n, table[j]))
    && (forall j, k :: 0 <= j < k < |table| ==> table[j].name != table[k].name)
    && (forall g, i, name :: Declares(gs, g, i, name) && Before(g, i, m, n) ==> HasName(table, name))
  }

  lemma SourcedLater(gs: seq<Argp>, m: nat, n: nat, e: Long, m': nat, n': nat)
    requires Sourced(gs, m, n, e) && !Before(m', n', m, n)
    ensures Sourced(gs, m', n', e)
  {
    var g, i :| Justified(gs, m, n, e, g, i);
    assert Justified(gs, m', n', e, g, i);
  }

  /** A name that is new at position (m, n) is declared there first. */
  lemma TableAdd(gs: seq<Argp>, m: nat, n: nat, table: seq<Long>, name: string)
    requires TableFor(gs, m, n, table) && Declares(gs, m, n, name) && !HasName(table, name)
    ensures TableFor(gs, m, n + 1, table + [EntryOf(Opts(gs[m]), n, m)])
  {
    hide Pack, KeyOf, ArgOf, Real;
    var e := EntryOf(Opts(gs[m]), n, m);
    var t := table + [e];
    assert First(gs, m, n, name);
    assert Justified(gs, m, n + 1, e, m, n);
    hide First, EntryOf, DeclaresLong;
    forall j | 0 <= j < |t|
      ensures Sourced(gs, m, n + 1, t[j])
    {
      if j < |table| {
        SourcedLater(gs, m, n, table[j], m, n + 1);
      }
    }
    forall g, i, x | Declares(gs, g, i, x) && Before(g, i, m, n + 1)
      ensures HasName(t, x)
    {
      if Before(g, i, m, n) {
        var j :| 0 <= j < |table| && table[j].name == Some(x);
        assert t[j].name == Some(x);
      } else {
        DeclaredOnce(gs, m, n, name, x);
        assert t[|table|].name == Some(x);
      }
    }
  }

  lemma DeclaredOnce(gs: seq<Argp>, g: nat, i: nat, x: string, y: string)
    requires Declares(gs, g, i, x) && Declares(gs, g, i, y)
    ensures x == y
  {}

  /** Any other position leaves the table as it is. */
  lemma TableSkip(gs: seq<Argp>, m: nat, n: nat, table: seq<Long>)
    requires TableFor(gs, m, n, table) && forall name :: Declares(gs, m, n, name) ==> HasName(table, name)
    ensures TableFor(gs, m, n + 1, table)
  {
    hide Declares, HasName;
    forall j | 0 <= j < |table|
      ensures Sourced(gs, m, n + 1, table[j])
    {
      SourcedLater(gs, m, n, table[j], m, n + 1);
    }
  }

  lemma TableNextGroup(gs: seq<Argp>, m: nat, table: seq<Long>)
    requires m < |gs| && TableFor(gs, m, |Opts(gs[m])|, table)
    ensures TableFor(gs, m + 1, 0, table)
  {
    hide HasName;
    forall j | 0 <= j < |table|
      ensures Sourced(gs, m + 1, 0, table[j])
    {
      SourcedLater(gs, m, |Opts(gs[m])|, table[j], m + 1, 0);
    }
  }
}
