/**
 The getopt tables of a parser, filled in place (glibc-2.27/argp/argp-parse.c: find_long_option, convert_options,
 parser_convert).  The arrays have the sizes that calc_sizes computed; that no write leaves them is part of the proof.
 */
module ArgpTables {
  import opened Optional
  import opened ArgpOptions
  import opened ArgpConvert

  /** A group: its table, the end of its short options, the group it is a child of, and its child inputs. */
  datatype Group = Group(argp: Argp, shortEnd: nat, parent: Option<nat>, parentIndex: nat, inputs: nat)

  /** The short options before position (m, n). */
  function TextAt(gs: seq<Argp>, m: nat, n: nat): seq<int>
    requires m <= |gs| && (n > 0 ==> m < |gs| && n <= |Opts(gs[m])|)
  {
    ShortOf(gs[..m]) + if n == 0 then [] else ShortText(Opts(gs[m]), n)
  }

  lemma TextNext(gs: seq<Argp>, m: nat, n: nat)
    requires m < |gs| && n < |Opts(gs[m])|
    ensures TextAt(gs, m, n + 1) == TextAt(gs, m, n) + Chunk(Opts(gs[m]), n)
  {
    hide Chunk;
  }

  lemma TextNextGroup(gs: seq<Argp>, m: nat)
    requires m < |gs|
    ensures TextAt(gs, m + 1, 0) == TextAt(gs, m, |Opts(gs[m])|)
  {
    hide Chunk;
    assert gs[..m + 1][..m] == gs[..m];
  }

  lemma {:induction false} ShortAppend(a: seq<Argp>, b: seq<Argp>)
    ensures ShortOf(a + b) == ShortOf(a) + ShortOf(b)
  {
    hide ShortText, Opts;
    if b == [] {
      assert a + b == a && ShortOf(b) == [];
    } else {
      var p, last := b[..|b| - 1], b[|b| - 1];
      var text := ShortText(Opts(last), |Opts(last)|);
      assert (a + b)[..|a + b| - 1] == a + p && (a + b)[|a + b| - 1] == last;
      assert ShortOf(a + b) == ShortOf(a + p) + text && ShortOf(b) == ShortOf(p) + text;
      hide ShortOf;
      ShortAppend(a, p);
    }
  }

  lemma {:induction false} TextGrows(opts: seq<Opt>, n: nat, k: nat)
    requires n <= k <= |opts|
    ensures |ShortText(opts, n)| <= |ShortText(opts, k)|
  {
    hide Chunk;
    if n < k {
      TextGrows(opts, n, k - 1);
    }
  }

  /** No prefix needs more room than the whole. */
  lemma PrefixFits(gs: seq<Argp>, m: nat, n: nat)
    requires m <= |gs| && (n > 0 ==> m < |gs| && n <= |Opts(gs[m])|)
    ensures |TextAt(gs, m, n)| <= |ShortOf(gs)|
    ensures SumOpts(gs[..m]) + n <= SumOpts(gs) && SumInputs(gs[..m]) <= SumInputs(gs)
  {
    Splits(gs, m);
    if n > 0 {
      Splits(gs, m + 1);
      TextPrefix(gs, m, n);
      SumPrefix(gs, m);
    } else {
      TextZero(gs, m);
    }
    hide TextAt, ShortOf, SumOpts, SumInputs;
  }

  lemma TextZero(gs: seq<Argp>, m: nat)
    requires m <= |gs|
    ensures TextAt(gs, m, 0) == ShortOf(gs[..m])
  {
    hide ShortOf;
  }

  lemma TextPrefix(gs: seq<Argp>, m: nat, n: nat)
    requires m < |gs| && n <= |Opts(gs[m])|
    ensures |TextAt(gs, m, n)| <= |ShortOf(gs[..m + 1])|
  {
    TextGrows(Opts(gs[m]), n, |Opts(gs[m])|);
    TextNextGroup(gs, m);
    TextZero(gs, m + 1);
    hide ShortOf, ShortText;
  }

  lemma SumPrefix(gs: seq<Argp>, m: nat)
    requires m < |gs|
    ensures SumOpts(gs[..m + 1]) == SumOpts(gs[..m]) + |Opts(gs[m])| &&
      SumInputs(gs[..m + 1]) == SumInputs(gs[..m]) + |gs[m].children|
  {
    assert gs[..m + 1][..m] == gs[..m];
  }

  lemma Splits(gs: seq<Argp>, m: nat)
    requires m <= |gs|
    ensures |ShortOf(gs[..m])| <= |ShortOf(gs)| && SumOpts(gs[..m]) <= SumOpts(gs) &&
      SumInputs(gs[..m]) <= SumInputs(gs)
  {
    hide ShortOf, SumOpts, SumInputs;
    assert gs == gs[..m] + gs[m..];
    ShortAppend(gs[..m], gs[m..]);
    OptsAppend(gs[..m], gs[m..]);
    InputsAppend(gs[..m], gs[m..]);
  }

  // ----- the tables as values

  const MINUS := '-' as int
  const PLUS := '+' as int

  /** The first character of the short options ('-' or '+'), which tells getopt what to do with arguments. */
  function Lead(inOrder: bool, noArgs: bool): seq<int> {
    if inOrder then [MINUS] else if noArgs then [PLUS] else []
  }

  datatype View = View(short: seq<int>, long: seq<Long>, groups: seq<Group>, inputs: nat)

  datatype Caps = Caps(short: nat, long: nat, groups: nat, inputs: nat)

  /** Room for the groups, with the terminators. */
  ghost predicate Room(gs: seq<Argp>, lead: nat, c: Caps) {
    lead + |ShortOf(gs)| < c.short && SumOpts(gs) < c.long && |gs| <= c.groups && SumInputs(gs) <= c.inputs
  }

  /** What is recorded for a group. */
  ghost predicate GroupOk(gs: seq<Argp>, lead: nat, i: nat, r: Group)
    requires i < |gs|
  {
    && r.argp == gs[i] && r.shortEnd == lead + |TextAt(gs, i + 1, 0)| && r.inputs == SumInputs(gs[..i])
    && ParentOk(gs, i, r.parent, r.parentIndex)
  }

  ghost predicate ParentOk(gs: seq<Argp>, i: nat, parent: Option<nat>, index: nat)
    requires i < |gs|
  {
    parent.Some? ==>
        parent.value < i && index < |gs[parent.value].children| && gs[parent.value].children[index] == gs[i]
  }

  ghost predicate GroupsOk(gs: seq<Argp>, lead: nat, m: nat, rs: seq<Group>) {
    m <= |gs| && |rs| == m && forall i :: 0 <= i < m ==> GroupOk(gs, lead, i, rs[i])
  }

  /** Everything before position (m, n) has been converted, and nothing else. */
  ghost predicate Converted(gs: seq<Argp>, lead: seq<int>, m: nat, n: nat, v: View) {
    && m == |v.groups| <= |gs| && (n > 0 ==> m < |gs| && n <= |Opts(gs[m])|)
    && v.short == lead + TextAt(gs, m, n)
    && TableFor(gs, m, n, v.long) && |v.long| <= SumOpts(gs[..m]) + n
    && GroupsOk(gs, |lead|, m, v.groups) && v.inputs == SumInputs(gs[..m])
  }

  /** What one entry of a table adds. */
  ghost predicate EntryAdds(opts: seq<Opt>, n: nat, v: View, w: View)
    requires n < |opts|
  {
    && w == v.(short := v.short + Chunk(opts, n), long := w.long)
    && w.long == (if Active(opts, n) && opts[n].name.Some? &&
        !HasName(v.long, opts[n].name.value) then v.long + [EntryOf(opts, n, |v.groups|)] else v.long)
  }

  lemma SameGroups(opts: seq<Opt>, n: nat, v: View, w: View)
    requires n < |opts| && EntryAdds(opts, n, v, w)
    ensures v.groups == w.groups
  {
    hide Chunk, Active, HasName;
  }

  lemma EntryKeeps(gs: seq<Argp>, lead: seq<int>, m: nat, n: nat, v: View, w: View)
    requires Converted(gs, lead, m, n, v) && m < |gs| && n < |Opts(gs[m])| && EntryAdds(Opts(gs[m]), n, v, w)
    ensures Converted(gs, lead, m, n + 1, w)
  {
    hide TextAt, Chunk, TableFor, GroupsOk, SumOpts, SumInputs, HasName, EntryOf, Active, Opts;
    TextNext(gs, m, n);
    Appended(lead, TextAt(gs, m, n), Chunk(Opts(gs[m]), n));
    EntryTable(gs, m, n, v.long, w.long);
  }

  lemma Appended(a: seq<int>, b: seq<int>, c: seq<int>)
    ensures a + b + c == a + (b + c)
  {}

  lemma EntryTable(gs: seq<Argp>, m: nat, n: nat, table: seq<Long>, next: seq<Long>)
    requires TableFor(gs, m, n, table) && m < |gs| && n < |Opts(gs[m])|
    requires var opts := Opts(gs[m]);
      next == if Active(opts, n) && opts[n].name.Some? && !HasName(table, opts[n].name.value)
          then table + [EntryOf(opts, n, m)] else table
    ensures TableFor(gs, m, n + 1, next)
  {
    hide TableFor, HasName, Pack, Active, Real;
    var opts := Opts(gs[m]);
    NameAt(gs, m, n);
    if Active(opts, n) && opts[n].name.Some? && !HasName(table, opts[n].name.value) {
      TableAdd(gs, m, n, table, opts[n].name.value);
    } else {
      TableSkip(gs, m, n, table);
    }
  }

  lemma EntryRoom(gs: seq<Argp>, lead: seq<int>, m: nat, n: nat, v: View, c: Caps)
    requires Converted(gs, lead, m, n, v) && Room(gs, |lead|, c) && m < |gs| && n < |Opts(gs[m])|
    ensures |v.short| + |Chunk(Opts(gs[m]), n)| < c.short && |v.long| + 1 < c.long && |v.groups| == m
  {
    PrefixFits(gs, m, n + 1);
    TextNext(gs, m, n);
    hide TextAt, Chunk, TableFor, SumOpts, SumInputs, ShortOf;
  }

  function GroupRecord(a: Argp, parent: Option<nat>, index: nat, v: View): Group {
    Group(a, |v.short|, parent, index, v.inputs)
  }

  /** What the record of a group adds. */
  function GroupAdded(a: Argp, parent: Option<nat>, index: nat, v: View): View {
    v.(groups := v.groups + [GroupRecord(a, parent, index, v)], inputs := v.inputs + |a.children|)
  }

  lemma GroupKeeps(gs: seq<Argp>, lead: seq<int>, m: nat, v: View, parent: Option<nat>, index: nat)
    requires m < |gs| && Converted(gs, lead, m, |Opts(gs[m])|, v) && ParentOk(gs, m, parent, index)
    ensures Converted(gs, lead, m + 1, 0, GroupAdded(gs[m], parent, index, v))
  {
    hide TextAt, TableFor, SumOpts, SumInputs, ParentOk, GroupOk, Opts;
    TextNextGroup(gs, m);
    NextGroup(gs, m, v.long);
    GroupRecordOk(gs, lead, m, v, parent, index);
  }

  lemma GroupRecordOk(gs: seq<Argp>, lead: seq<int>, m: nat, v: View, parent: Option<nat>, index: nat)
    requires m < |gs| && v.short == lead + TextAt(gs, m, |Opts(gs[m])|) && v.inputs == SumInputs(gs[..m]) &&
      ParentOk(gs, m, parent, index)
    ensures GroupOk(gs, |lead|, m, GroupRecord(gs[m], parent, index, v))
  {
    hide TextAt, SumInputs, ParentOk, Opts;
    TextNextGroup(gs, m);
  }

  lemma GroupRoom(gs: seq<Argp>, lead: seq<int>, m: nat, n: nat, v: View, c: Caps)
    requires Converted(gs, lead, m, n, v) && Room(gs, |lead|, c) && m < |gs|
    ensures |v.groups| == m < c.groups && v.inputs + |gs[m].children| <= c.inputs
  {
    PrefixFits(gs, m + 1, 0);
    SumPrefix(gs, m);
    hide TextAt, TableFor, SumOpts, SumInputs, ShortOf;
  }

  /** The places that the records give. */
  function Recorded(rs: seq<Group>): (r: seq<Place>)
    ensures |r| == |rs|
  {
    seq(|rs|, i requires 0 <= i < |rs| => Place(rs[i].parent, rs[i].parentIndex))
  }

  lemma RecordedSnoc(rs: seq<Group>, r: Group)
    ensures Recorded(rs + [r]) == Recorded(rs) + [Place(r.parent, r.parentIndex)]
  {}

  // ----- the tables in memory

  class Tables {
    const shortOpts: array<int>
    const longOpts: array<Long>
    const groups: array<Group>
    const childSlots: nat
    var shortEnd: nat
    var longEnd: nat
    var groupEnd: nat
    var childEnd: nat

    ghost function Capacity(): Caps {
      Caps(shortOpts.Length, longOpts.Length, groups.Length, childSlots)
    }

    /** The lists end within their arrays, with their terminators. */
    ghost predicate Valid()
      reads this, shortOpts, longOpts, groups
    {
      && shortEnd < shortOpts.Length && shortOpts[shortEnd] == 0
      && longEnd < longOpts.Length && longOpts[longEnd].name.None? &&
          (forall j :: 0 <= j < longEnd ==> longOpts[j].name.Some?)
      && groupEnd <= groups.Length && childEnd <= childSlots
    }

    ghost function Now(): View
      requires Valid()
      reads this, shortOpts, longOpts, groups
    {
      View(shortOpts[..shortEnd], longOpts[..longEnd], groups[..groupEnd], childEnd)
    }

    /** Empty tables of the given sizes. */
    constructor (short: nat, long: nat, numGroups: nat, inputs: nat)
      requires short > 0 && long > 0
      ensures Valid() && Now() == View([], [], [], 0) && Capacity() == Caps(short, long, numGroups, inputs)
      ensures fresh(shortOpts) && fresh(longOpts) && fresh(groups)
    {
      shortOpts := new int[short](_ => 0);
      longOpts := new Long[long](_ => Long(None, NoArgument, 0));
      groups := new Group[numGroups](_ => Group(Argp(None, false, []), 0, None, 0, 0));
      childSlots := inputs;
      shortEnd, longEnd, groupEnd, childEnd := 0, 0, 0, 0;
    }

    /** The start of parser_convert. */
    method Start(inOrder: bool, noArgs: bool)
      requires Valid() && shortEnd + |Lead(inOrder, noArgs)| < shortOpts.Length
      modifies this`shortEnd, shortOpts
      ensures Valid() && Now() == old(Now()).(short := old(Now()).short + Lead(inOrder, noArgs))
    {
      if inOrder {
        PutChar(MINUS);
      } else if noArgs {
        PutChar(PLUS);
      }
    }

    /** find_long_option. */
    method FindLong(name: string) returns (r: int)
      requires Valid()
      ensures r == -1 || 0 <= r < longEnd
      ensures r == -1 <==> !HasName(Now().long, name)
      ensures r >= 0 ==> longOpts[r].name == Some(name)
    {
      var l := 0;
      while longOpts[l].name.Some?
        invariant 0 <= l <= longEnd && forall j :: 0 <= j < l ==> longOpts[j].name != Some(name)
        decreases longEnd - l
      {
        if longOpts[l].name.value == name {
          assert longOpts[..longEnd][l].name == Some(name);
          return l;
        }
        l := l + 1;
      }
      return -1;
    }

    /** One more character, and the terminator after it. */
    method PutChar(ch: int)
      requires Valid() && shortEnd + 1 < shortOpts.Length
      modifies this`shortEnd, shortOpts
      ensures Valid() && Now() == old(Now()).(short := old(Now()).short + [ch])
    {
      shortOpts[shortEnd] := ch;
      shortEnd := shortEnd + 1;
      shortOpts[shortEnd] := 0;
    }

    /** The short option of an entry. */
    method PutShort(opts: seq<Opt>, i: nat, main: Opt)
      requires Valid() && i < |opts| && main == opts[Real(opts, i)] && !main.doc
      requires shortEnd + |Chunk(opts, i)| < shortOpts.Length
      modifies this`shortEnd, shortOpts
      ensures Valid() && Now() == old(Now()).(short := old(Now()).short + Chunk(opts, i))
    {
      hide Real, Valid;
      if IsShort(opts[i]) {
        PutChar(opts[i].key);
        if main.arg {
          PutChar(COLON);
          if main.optional {
            PutChar(COLON);
          }
        }
      }
    }

    /** One more long option, and the terminator after it. */
    method AddLong(e: Long)
      requires Valid() && longEnd + 1 < longOpts.Length && e.name.Some?
      modifies this`longEnd, longOpts
      ensures Valid() && Now() == old(Now()).(long := old(Now()).long + [e])
    {
      longOpts[longEnd] := e;
      longEnd := longEnd + 1;
      longOpts[longEnd] := Long(None, NoArgument, 0);
    }

    /** The long option of an entry, unless its name is taken. */
    method PutLong(opts: seq<Opt>, i: nat, main: Opt)
      requires Valid() && i < |opts| && main == opts[Real(opts, i)] && !main.doc && longEnd + 1 < longOpts.Length
      modifies this`longEnd, longOpts
      ensures Valid() && Now() == old(Now()).(long := Now().long)
      ensures Now().long == if opts[i].name.Some? && !HasName(old(Now()).long, opts[i].name.value)
        then old(Now()).long + [EntryOf(opts, i, groupEnd)]
                            else old(Now()).long
    {
      hide Real, HasName, Pack;
      if opts[i].name.Some? {
        var found := FindLong(opts[i].name.value);
        if found < 0 {
          hide Valid;
          var hasArg := if main.arg then (if main.optional then OptionalArgument else RequiredArgument) else NoArgument;
          AddLong(Long(opts[i].name, hasArg, Pack(groupEnd, if opts[i].key != 0 then opts[i].key else main.key)));
        }
      }
    }

    /** One entry of an option table. */
    method ConvertEntry(opts: seq<Opt>, i: nat, main: Opt)
      requires Valid() && i < |opts| && main == opts[Real(opts, i)]
      requires shortEnd + |Chunk(opts, i)| < shortOpts.Length && longEnd + 1 < longOpts.Length
      modifies this`shortEnd, this`longEnd, shortOpts, longOpts
      ensures Valid() && EntryAdds(opts, i, old(Now()), Now())
    {
      hide Real, HasName, EntryOf;
      if !main.doc {
        assert Active(opts, i);
        assert |Now().groups| == groupEnd && |Now().long| == longEnd;
        hide Chunk;
        PutShort(opts, i, main);
        assert |Now().long| == longEnd;
        PutLong(opts, i, main);
      } else {
        assert Chunk(opts, i) == [];
        assert Now().short + [] == Now().short;
      }
    }

    /** Everything before position (m, n) has been converted, and there is room for the rest. */
    ghost predicate At(gs: seq<Argp>, lead: seq<int>, m: nat, n: nat)
      reads this, shortOpts, longOpts, groups
    {
      Valid() && Converted(gs, lead, m, n, Now()) && Room(gs, |lead|, Capacity())
    }

    /** All entries of an option table. */
    method ConvertTable(opts: seq<Opt>, ghost gs: seq<Argp>, ghost lead: seq<int>, ghost m: nat)
      requires At(gs, lead, m, 0) && m < |gs| && opts == Opts(gs[m])
      modifies this`shortEnd, this`longEnd, shortOpts, longOpts
      ensures At(gs, lead, m, |opts|) && Now().groups == old(Now()).groups
    {
      hide Converted, Room, EntryAdds, Chunk, Opts;
      var main, n := 0, 0;
      while n < |opts|
        invariant 0 <= n <= |opts| && At(gs, lead, m, n) && main == if n == 0 then 0 else Real(opts, n - 1)
        invariant Now().groups == old(Now()).groups
      {
        if !opts[n].alias {
          main := n;
        }
        ghost var v := Now();
        EntryRoom(gs, lead, m, n, v, Capacity());
        assert |v.short| == shortEnd && |v.long| == longEnd;
        ConvertEntry(opts, n, opts[main]);
        EntryKeeps(gs, lead, m, n, v, Now());
        SameGroups(opts, n, v, Now());
        n := n + 1;
      }
    }

    /** The record of a group. */
    method AddGroup(a: Argp, parent: Option<nat>, index: nat)
      requires Valid() && groupEnd < groups.Length && childEnd + |a.children| <= childSlots
      modifies this`groupEnd, this`childEnd, groups
      ensures Valid() && Now() == GroupAdded(a, parent, index, old(Now()))
    {
      groups[groupEnd] := Group(a, shortEnd, parent, index, childEnd);
      childEnd := childEnd + |a.children|;
      groupEnd := groupEnd + 1;
    }

    /** The first m groups have been converted, and their records give these places. */
    ghost predicate Done(gs: seq<Argp>, lead: seq<int>, m: nat, ps: seq<Place>)
      reads this, shortOpts, longOpts, groups
    {
      At(gs, lead, m, 0) && Recorded(Now().groups) == ps
    }

    /** A group: its table and its record. */
    method ConvertGroup(a: Argp, parent: Option<nat>, index: nat,
                        ghost gs: seq<Argp>, ghost lead: seq<int>, ghost m: nat, ghost ps: seq<Place>)
        returns (g: nat)
      requires Done(gs, lead, m, ps) && m < |gs| && gs[m] == a && ParentOk(gs, m, parent, index)
      modifies this, shortOpts, longOpts, groups
      ensures Done(gs, lead, m + 1, ps + [Place(parent, index)]) && g == m
    {
      hide Converted, Room, ParentOk, Recorded;
      if a.options.Some? {
        ConvertTable(a.options.value, gs, lead, m);
      }
      ghost var v := Now();
      GroupRoom(gs, lead, m, |Opts(a)|, v, Capacity());
      assert |v.groups| == groupEnd;
      GroupKeeps(gs, lead, m, v, parent, index);
      RecordedSnoc(v.groups, GroupRecord(a, parent, index, v));
      g := groupEnd;
      AddGroup(a, parent, index);
    }

    /** convert_options: the groups of a whole tree, in preorder, each at its place. */
    method ConvertOptions(a: Argp, parent: Option<nat>, index: nat,
                          ghost gs: seq<Argp>, ghost lead: seq<int>, ghost m: nat, ghost ps: seq<Place>)
      requires Done(gs, lead, m, ps) && IsSlice(gs, m, Groups(a))
      requires HasGroup(a) ==> m < |gs| && ParentOk(gs, m, parent, index)
      modifies this, shortOpts, longOpts, groups
      ensures Done(gs, lead, m + |Groups(a)|, ps + Places(a, Place(parent, index), m))
      decreases a
    {
      hide Done, Groups, GroupsAll, ParentOk, IsSlice, HasGroup, Places, PlacesAll;
      OwnSlice(gs, m, a);
      OwnPlaces(a, Place(parent, index), m, ps);
      if HasGroup(a) {
        var g := ConvertGroup(a, parent, index, gs, lead, m, ps);
        ConvertChildren(a.children, Some(g), gs, lead, m + 1, ps + [Place(parent, index)]);
      } else {
        ConvertChildren(a.children, None, gs, lead, m, ps);
      }
    }

    /** Its loop over the children. */
    method ConvertChildren(cs: seq<Argp>, parent: Option<nat>,
                           ghost gs: seq<Argp>, ghost lead: seq<int>, ghost m: nat, ghost ps: seq<Place>)
      requires Done(gs, lead, m, ps) && IsSlice(gs, m, GroupsAll(cs))
      requires parent.Some? ==> parent.value < m && m <= |gs| && gs[parent.value].children == cs
      modifies this, shortOpts, longOpts, groups
      ensures Done(gs, lead, m + |GroupsAll(cs)|, ps + PlacesAll(cs, parent, m))
      decreases cs
    {
      hide Done, Groups, GroupsAll, IsSlice, Places, PlacesAll;
      NoGroups(cs, parent, m);
      assert ps + [] == ps;
      var index := 0;
      while index < |cs|
        invariant 0 <= index <= |cs|
        invariant Done(gs, lead, m + |GroupsAll(cs[..index])|, ps + PlacesAll(cs[..index], parent, m))
      {
        ChildSlice(gs, m, cs, index);
        NextPlaces(cs, parent, m, index, ps);
        ghost var now := m + |GroupsAll(cs[..index])|;
        ChildParent(gs, now, cs, index, parent);
        ConvertOptions(cs[index], parent, index, gs, lead, now, ps + PlacesAll(cs[..index], parent, m));
        index := index + 1;
      }
      assert cs[..index] == cs;
    }
  }

  lemma OwnPlaces(a: Argp, at: Place, m: nat, ps: seq<Place>)
    ensures HasGroup(a) ==> ps + Places(a, at, m) == ps + [at] + PlacesAll(a.children, Some(m), m + 1)
    ensures !HasGroup(a) ==> Places(a, at, m) == PlacesAll(a.children, None, m)
  {
    hide PlacesAll;
  }

  lemma NextPlaces(cs: seq<Argp>, parent: Option<nat>, m: nat, k: nat, ps: seq<Place>)
    requires k < |cs|
    ensures ps + PlacesAll(cs[..k], parent, m) + Places(cs[k], Place(parent, k), m + |GroupsAll(cs[..k])|)
            == ps + PlacesAll(cs[..k + 1], parent, m)
  {
    hide PlacesAll, Places, GroupsAll;
    PlacesStep(cs, parent, m, k);
  }

  ghost predicate IsSlice(gs: seq<Argp>, m: nat, part: seq<Argp>) {
    m + |part| <= |gs| && gs[m..m + |part|] == part
  }

  lemma NoGroups(cs: seq<Argp>, parent: Option<nat>, m: nat)
    ensures GroupsAll(cs[..0]) == [] && PlacesAll(cs[..0], parent, m) == []
  {}

  lemma OwnSlice(gs: seq<Argp>, m: nat, a: Argp)
    requires IsSlice(gs, m, Groups(a))
    ensures HasGroup(a) ==>
      m < |gs| && gs[m] == a && IsSlice(gs, m + 1, GroupsAll(a.children)) && |Groups(a)| == 1 + |GroupsAll(a.children)|
    ensures !HasGroup(a) ==> IsSlice(gs, m, GroupsAll(a.children)) && |Groups(a)| == |GroupsAll(a.children)|
  {
    OwnGroup(a);
    hide GroupsAll, Groups;
    var own, rest := Groups(a), GroupsAll(a.children);
    if HasGroup(a) {
      assert gs[m] == gs[m..m + |own|][0];
      Subslice(gs, m, |own|, 1, |own|);
      assert own == [a] + rest && own[1..|own|] == rest;
    } else {
      assert own == rest;
    }
  }

  lemma ChildParent(gs: seq<Argp>, m: nat, cs: seq<Argp>, k: nat, parent: Option<nat>)
    requires k < |cs| && IsSlice(gs, m, Groups(cs[k])) &&
      (parent.Some? ==> parent.value < m && gs[parent.value].children == cs)
    ensures HasGroup(cs[k]) ==> m < |gs| && ParentOk(gs, m, parent, k)
  {
    OwnSlice(gs, m, cs[k]);
  }

  /** The groups of one child lie next to each other. */
  lemma ChildSlice(gs: seq<Argp>, m: nat, cs: seq<Argp>, k: nat)
    requires k < |cs| && IsSlice(gs, m, GroupsAll(cs))
    ensures |GroupsAll(cs[..k + 1])| == |GroupsAll(cs[..k])| + |Groups(cs[k])|
    ensures IsSlice(gs, m + |GroupsAll(cs[..k])|, Groups(cs[k]))
  {
    hide Groups, GroupsAll;
    var before, own := GroupsAll(cs[..k]), Groups(cs[k]);
    GroupsStep(cs, k);
    var rest := GroupsSplit(cs, k + 1);
    assert GroupsAll(cs) == before + own + rest;
    Subslice(gs, m, |GroupsAll(cs)|, |before|, |before| + |own|);
    assert own == GroupsAll(cs)[|before|..|before| + |own|];
  }

  lemma Subslice(gs: seq<Argp>, m: nat, n: nat, i: nat, j: nat)
    requires m + n <= |gs| && i <= j <= n
    ensures gs[m..m + n][i..j] == gs[m + i..m + j]
  {
    var a, b := gs[m..m + n][i..j], gs[m + i..m + j];
    assert forall k :: 0 <= k < j - i ==> a[k] == gs[m + (i + k)] && b[k] == gs[(m + i) + k];
  }

  lemma NameAt(gs: seq<Argp>, m: nat, n: nat)
    requires m < |gs| && n < |Opts(gs[m])|
    ensures forall x :: Declares(gs, m, n, x) <==> Active(Opts(gs[m]), n) && Opts(gs[m])[n].name == Some(x)
  {}

  lemma NextGroup(gs: seq<Argp>, m: nat, table: seq<Long>)
    requires m < |gs| && TableFor(gs, m, |Opts(gs[m])|, table)
    ensures TableFor(gs, m + 1, 0, table)
    ensures SumOpts(gs[..m + 1]) == SumOpts(gs[..m]) + |Opts(gs[m])| &&
      SumInputs(gs[..m + 1]) == SumInputs(gs[..m]) + |gs[m].children|
  {
    TableNextGroup(gs, m, table);
    SumPrefix(gs, m);
  }

  lemma {:induction false} GroupsSplit(cs: seq<Argp>, k: nat) returns (rest: seq<Argp>)
    requires k <= |cs|
    ensures GroupsAll(cs) == GroupsAll(cs[..k]) + rest
    decreases |cs| - k
  {
    hide Groups, GroupsAll;
    if k == |cs| {
      assert cs[..k] == cs;
      rest := [];
    } else {
      GroupsStep(cs, k);
      rest := GroupsSplit(cs, k + 1);
      rest := Groups(cs[k]) + rest;
    }
  }
}
