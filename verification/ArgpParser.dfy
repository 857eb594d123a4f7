/**
 Allocating and filling a parser, and dispatching options to groups (glibc-2.27/argp/argp-parse.c: parser_init,
 parser_convert, parser_parse_opt).
 */
module ArgpParser {
  import opened Optional
  import opened ArgpOptions
  import opened ArgpConvert
  import opened ArgpTables

  // ----- room for the tables

  function AllGroups(a: Option<Argp>): seq<Argp> {
    if a.Some? then Groups(a.value) else []
  }

  function AllPlaces(a: Option<Argp>): seq<Place> {
    if a.Some? then Places(a.value, Place(None, 0), 0) else []
  }

  /** Every entry takes three characters of the short options: an option letter and two colons. */
  ghost predicate AllFull(gs: seq<Argp>) {
    forall g, i :: 0 <= g < |gs| && 0 <= i < |Opts(gs[g])| ==> |Chunk(Opts(gs[g]), i)| == 3
  }

  lemma {:induction false} FullText(opts: seq<Opt>, n: nat)
    requires n <= |opts|
    ensures |ShortText(opts, n)| == 3 * n <==> forall i :: 0 <= i < n ==> |Chunk(opts, i)| == 3
  {
    hide Chunk;
    TextAtMost(opts, n);
    if n > 0 {
      FullText(opts, n - 1);
      TextAtMost(opts, n - 1);
    }
  }

  lemma {:induction false} FullGroups(gs: seq<Argp>)
    ensures |ShortOf(gs)| == 3 * SumOpts(gs) <==> AllFull(gs)
  {
    if gs != [] {
      hide Chunk, ShortText, Opts;
      var p, a := gs[..|gs| - 1], gs[|gs| - 1];
      FullGroups(p);
      FullText(Opts(a), |Opts(a)|);
      TextAtMost(Opts(a), |Opts(a)|);
      ShortAtMost(p);
      assert AllFull(gs) <==> AllFull(p) && forall i :: 0 <= i < |Opts(a)| ==> |Chunk(Opts(a), i)| == 3 by {
        FullSplit(gs);
      }
    }
  }

  lemma FullSplit(gs: seq<Argp>)
    requires gs != []
    ensures var p, a := gs[..|gs| - 1], gs[|gs| - 1];
            AllFull(gs) <==> AllFull(p) && forall i :: 0 <= i < |Opts(a)| ==> |Chunk(Opts(a), i)| == 3
  {
    hide Chunk, Opts;
    var p := gs[..|gs| - 1];
    assert forall g :: 0 <= g < |p| ==> p[g] == gs[g];
  }

  /** The room that parser_init allocates for the short options, with the terminator. */
  function ShortRoom(gs: seq<Argp>, noArgs: bool): nat {
    (if noArgs then 0 else 1) + 3 * SumOpts(gs) + 1
  }

  /**
   It is enough for every tree and every set of flags, except with ARGP_NO_ARGS when every entry is
   a short option with an optional argument (in particular when there are no entries): then it is
   one too small.
   */
  lemma ShortRoomExact(gs: seq<Argp>, inOrder: bool, noArgs: bool)
    ensures |Lead(inOrder, noArgs)| + |ShortOf(gs)| + 1 <= ShortRoom(gs, noArgs) <==> !(noArgs && AllFull(gs))
  {
    hide AllFull;
    FullGroups(gs);
    ShortAtMost(gs);
  }

  /** Without any entry, ARGP_NO_ARGS makes it too small. */
  lemma ShortRoomMissing()
    ensures |Lead(false, true)| + |ShortOf([])| + 1 > ShortRoom([], true)
  {}

  /** parser_init: the sizes, the arrays and the conversion; no write leaves the arrays. */
  method ParserInit(a: Option<Argp>, inOrder: bool, noArgs: bool) returns (t: Tables)
    requires !(noArgs && AllFull(AllGroups(a)))
    ensures t.Done(AllGroups(a), Lead(inOrder, noArgs), |AllGroups(a)|, AllPlaces(a))
  {
    hide AllFull, Groups, ShortOf, SumOpts, SumInputs, Converted, HasGroup, IsSlice, ChildCount, GroupsAll, Places;
    ghost var gs, lead := AllGroups(a), Lead(inOrder, noArgs);
    EmptySums();
    var sizes := Sizes(if noArgs then 0 else 1, 0, 0, 0);
    if a.Some? {
      sizes := CalcSizes(a.value, sizes);
      InputsAtMost(a.value);
    }
    ShortRoomExact(gs, inOrder, noArgs);
    t := new Tables(sizes.short + 1, sizes.long + 1, sizes.groups + 1, sizes.inputs);
    assert Room(gs, |lead|, t.Capacity());
    t.Start(inOrder, noArgs);
    assert [] + lead == lead;
    StartConverted(gs, lead);
    if a.Some? {
      Whole(gs);
      OwnSlice(gs, 0, a.value);
      assert Recorded(t.Now().groups) == [];
      t.ConvertOptions(a.value, None, 0, gs, lead, 0, []);
    }
  }

  lemma EmptySums()
    ensures ShortOf([]) == [] && SumOpts([]) == 0 && SumInputs([]) == 0
  {}

  lemma StartConverted(gs: seq<Argp>, lead: seq<int>)
    ensures Converted(gs, lead, 0, 0, View(lead, [], [], 0))
  {
    assert gs[..0] == [];
    assert lead + [] == lead;
  }

  lemma Whole(gs: seq<Argp>)
    ensures IsSlice(gs, 0, gs)
  {
    assert gs[0..|gs|] == gs;
  }

  /** The slot that a group's input comes from lies within its parent's child inputs, and within the allocated ones. */
  lemma ChildInput(gs: seq<Argp>, lead: seq<int>, v: View, c: Caps, i: nat)
    requires Converted(gs, lead, |gs|, 0, v) && Room(gs, |lead|, c) && i < |gs| && v.groups[i].parent.Some?
    ensures var p := v.groups[i].parent.value;
            && p < i && v.groups[p].inputs + |gs[p].children| == SumInputs(gs[..p + 1]) <= c.inputs
            && v.groups[i].parentIndex < |gs[p].children| && gs[p].children[v.groups[i].parentIndex] == gs[i]
  {
    hide TextAt, TableFor, SumOpts, SumInputs, ShortOf;
    var p := v.groups[i].parent.value;
    assert GroupOk(gs, |lead|, i, v.groups[i]);
    assert GroupOk(gs, |lead|, p, v.groups[p]);
    SumPrefix(gs, p);
    Splits(gs, p + 1);
  }

  // ----- dispatching

  ghost predicate GroupDeclares(a: Argp, ch: int) {
    exists i :: 0 <= i < |Opts(a)| && DeclaresShort(Opts(a), i, ch)
  }

  /** Some group declares the letter. */
  ghost predicate Accepts(gs: seq<Argp>, ch: int) {
    exists g :: 0 <= g < |gs| && GroupDeclares(gs[g], ch)
  }

  /** The group that a short option belongs to: the first one in preorder that declares it. */
  ghost predicate FirstShort(gs: seq<Argp>, g: nat, ch: int) {
    g < |gs| && GroupDeclares(gs[g], ch) && forall h :: 0 <= h < g ==> !GroupDeclares(gs[h], ch)
  }

  /** The characters that a group writes. */
  function GroupText(a: Argp): seq<int> {
    ShortText(Opts(a), |Opts(a)|)
  }

  /** The entry writes a colon: as its letter, or after it. */
  ghost predicate ColonAt(opts: seq<Opt>, i: nat)
    requires i < |opts|
  {
    Active(opts, i) && IsShort(opts[i]) && (opts[i].key == COLON || opts[Real(opts, i)].arg)
  }

  ghost predicate FirstWith(gs: seq<Argp>, g: nat, ch: int) {
    g < |gs| && ch in GroupText(gs[g]) && forall h :: 0 <= h < g ==> ch !in GroupText(gs[h])
  }

  lemma {:induction false} WritesIn(opts: seq<Opt>, n: nat, i: nat, ch: int)
    requires i < n <= |opts| && ch in Chunk(opts, i)
    ensures ch in ShortText(opts, n)
  {
    hide Chunk;
    if i < n - 1 {
      WritesIn(opts, n - 1, i, ch);
    }
  }

  lemma {:induction false} WrittenBy(opts: seq<Opt>, n: nat, ch: int) returns (i: nat)
    requires n <= |opts| && ch in ShortText(opts, n)
    ensures i < n && ch in Chunk(opts, i)
  {
    hide Chunk;
    if ch in Chunk(opts, n - 1) {
      i := n - 1;
    } else {
      i := WrittenBy(opts, n - 1, ch);
    }
  }

  lemma TextHas(a: Argp, ch: int)
    requires ch != COLON
    ensures ch in GroupText(a) <==> GroupDeclares(a, ch)
  {
    hide Chunk, DeclaresShort, ShortText, ColonAt;
    if ch in GroupText(a) {
      var i := WrittenBy(Opts(a), |Opts(a)|, ch);
      ChunkHas(Opts(a), i, ch);
    }
    if GroupDeclares(a, ch) {
      var i :| 0 <= i < |Opts(a)| && DeclaresShort(Opts(a), i, ch);
      ChunkHas(Opts(a), i, ch);
      WritesIn(Opts(a), |Opts(a)|, i, ch);
    }
  }

  lemma ChunkHas(opts: seq<Opt>, i: nat, ch: int)
    requires i < |opts|
    ensures ch != COLON ==> (ch in Chunk(opts, i) <==> DeclaresShort(opts, i, ch))
    ensures COLON in Chunk(opts, i) <==> ColonAt(opts, i)
  {
    hide Real;
  }

  lemma FirstWithIsFirst(gs: seq<Argp>, ch: int)
    requires ch != COLON
    ensures forall g :: 0 <= g < |gs| ==> (ch in GroupText(gs[g]) <==> GroupDeclares(gs[g], ch))
    ensures forall g :: FirstWith(gs, g, ch) <==> FirstShort(gs, g, ch)
  {
    hide ShortText, DeclaresShort;
    forall g | 0 <= g < |gs|
      ensures ch in GroupText(gs[g]) <==> GroupDeclares(gs[g], ch)
    {
      TextHas(gs[g], ch);
    }
  }

  /** Where the characters of the first groups end. */
  function End(gs: seq<Argp>, lead: seq<int>, g: nat): nat
    requires g <= |gs|
  {
    |lead| + |ShortOf(gs[..g])|
  }

  lemma EndNext(gs: seq<Argp>, g: nat)
    requires g < |gs|
    ensures ShortOf(gs[..g + 1]) == ShortOf(gs[..g]) + GroupText(gs[g])
  {
    assert gs[..g + 1][..g] == gs[..g];
    hide ShortText;
  }

  lemma PrefixOf(gs: seq<Argp>, g: nat)
    requires g <= |gs|
    ensures ShortOf(gs[..g]) <= ShortOf(gs)
  {
    assert gs == gs[..g] + gs[g..];
    ShortAppend(gs[..g], gs[g..]);
    hide ShortOf;
  }

  /** The characters of a group, in the whole string. */
  lemma CharAt(gs: seq<Argp>, lead: seq<int>, g: nat, j: nat)
    requires g < |gs| && j < |GroupText(gs[g])|
    ensures End(gs, lead, g) + j < End(gs, lead, g + 1) <= |lead + ShortOf(gs)|
    ensures (lead + ShortOf(gs))[End(gs, lead, g) + j] == GroupText(gs[g])[j]
  {
    hide ShortOf, GroupText;
    EndNext(gs, g);
    PrefixOf(gs, g + 1);
    var i := |ShortOf(gs[..g])| + j;
    assert ShortOf(gs)[i] == ShortOf(gs[..g + 1])[i];
  }

  lemma {:induction false} EndsGrow(gs: seq<Argp>, lead: seq<int>, h: nat, g: nat)
    requires h <= g <= |gs|
    ensures End(gs, lead, h) <= End(gs, lead, g)
  {
    hide ShortOf, GroupText;
    if h < g {
      EndsGrow(gs, lead, h, g - 1);
      EndNext(gs, g - 1);
    }
  }

  ghost predicate FirstAt(text: seq<int>, ch: int, p: nat) {
    p < |text| && text[p] == ch && forall q :: 0 <= q < p ==> text[q] != ch
  }

  /** The first group that ends behind the first occurrence of a character is the first group that writes it. */
  lemma DispatchRight(gs: seq<Argp>, lead: seq<int>, ch: int, p: nat, g: nat)
    requires FirstAt(lead + ShortOf(gs), ch, p) && ch !in lead && g < |gs|
    requires End(gs, lead, g + 1) > p && (g > 0 ==> End(gs, lead, g) <= p)
    ensures FirstWith(gs, g, ch)
  {
    hide ShortOf, GroupText;
    assert End(gs, lead, 0) == |lead| by {
      NoText(gs);
    }
    assert p >= |lead|;
    EndNext(gs, g);
    CharAt(gs, lead, g, p - End(gs, lead, g));
    forall h | 0 <= h < g
      ensures ch !in GroupText(gs[h])
    {
      EndsGrow(gs, lead, h + 1, g);
      forall j | 0 <= j < |GroupText(gs[h])|
        ensures GroupText(gs[h])[j] != ch
      {
        CharAt(gs, lead, h, j);
      }
    }
  }

  lemma NoText(gs: seq<Argp>)
    ensures ShortOf(gs[..0]) == []
  {
    assert gs[..0] == [];
  }

  lemma DispatchNone(gs: seq<Argp>, lead: seq<int>, ch: int, g: nat)
    requires ch !in lead + ShortOf(gs) && g < |gs|
    ensures ch !in GroupText(gs[g])
  {
    hide ShortOf, GroupText;
    forall j | 0 <= j < |GroupText(gs[g])|
      ensures GroupText(gs[g])[j] != ch
    {
      CharAt(gs, lead, g, j);
    }
  }

  /** A position within the string belongs to some group, or to the lead. */
  lemma SomeGroup(gs: seq<Argp>, lead: seq<int>, p: nat)
    requires p < |lead + ShortOf(gs)|
    ensures End(gs, lead, |gs|) > p
  {
    assert gs[..|gs|] == gs;
    hide ShortOf;
  }

  lemma GroupEnd(gs: seq<Argp>, lead: seq<int>, v: View, g: nat)
    requires Converted(gs, lead, |gs|, 0, v) && g < |gs|
    ensures |v.groups| == |gs| && v.groups[g].shortEnd == End(gs, lead, g + 1)
  {
    hide ShortOf, TableFor, SumInputs, SumOpts;
    assert GroupOk(gs, |lead|, g, v.groups[g]);
  }

  lemma TextIs(gs: seq<Argp>, lead: seq<int>, v: View)
    requires Converted(gs, lead, |gs|, 0, v)
    ensures v.short == lead + ShortOf(gs) && |v.groups| == |gs|
  {
    hide ShortOf, TableFor, SumInputs, SumOpts, GroupsOk;
    assert gs[..|gs|] == gs;
  }

  /** strchr. */
  method StrChr(t: Tables, ch: int) returns (p: Option<nat>)
    requires t.Valid() && ch != 0
    ensures p.None? ==> ch !in t.Now().short
    ensures p.Some? ==> FirstAt(t.Now().short, ch, p.value)
  {
    var i := 0;
    while i < t.shortEnd
      invariant 0 <= i <= t.shortEnd && forall q :: 0 <= q < i ==> t.shortOpts[q] != ch
    {
      if t.shortOpts[i] == ch {
        return Some(i);
      }
      i := i + 1;
    }
    return None;
  }

  /** The first group that ends behind a position. */
  method FindGroup(t: Tables, p: nat) returns (g: nat)
    requires t.Valid()
    ensures g <= t.groupEnd && (g < t.groupEnd ==> t.groups[g].shortEnd > p) &&
      forall h :: 0 <= h < g ==> t.groups[h].shortEnd <= p
  {
    g := 0;
    while g < t.groupEnd
      invariant g <= t.groupEnd && forall h :: 0 <= h < g ==> t.groups[h].shortEnd <= p
    {
      if t.groups[g].shortEnd > p {
        return;
      }
      g := g + 1;
    }
  }

  /** The short option half of parser_parse_opt: the character goes to the first group that writes it. */
  method ParseShort(t: Tables, ch: int, ghost gs: seq<Argp>, ghost lead: seq<int>) returns (r: Option<nat>)
    requires t.At(gs, lead, |gs|, 0) && ch > 0
    ensures ch !in lead && r.Some? ==> FirstWith(gs, r.value, ch)
    ensures ch !in lead && r.None? ==> forall g :: 0 <= g < |gs| ==> ch !in GroupText(gs[g])
    ensures lead == [ch] && gs != [] ==> r == Some(0)
    ensures r.Some? ==> r.value < |gs|
  {
    hide Converted, Room, ShortOf, GroupText, FirstWith;
    ghost var v := t.Now();
    TextIs(gs, lead, v);
    var p := StrChr(t, ch);
    if p.None? {
      forall g | 0 <= g < |gs|
        ensures ch !in GroupText(gs[g])
      {
        DispatchNone(gs, lead, ch, g);
      }
      return None;
    }
    var g := FindGroup(t, p.value);
    assert t.groupEnd == |v.groups| && forall h :: 0 <= h < |v.groups| ==> v.groups[h] == t.groups[h];
    if gs != [] {
      NoText(gs);
      assert lead == [ch] ==> (lead + ShortOf(gs))[0] == ch;
      SomeGroup(gs, lead, p.value);
      EndsGrow(gs, lead, 0, 1);
      GroupEnd(gs, lead, v, 0);
      GroupEnd(gs, lead, v, |gs| - 1);
      assert g < |gs|;
      GroupEnd(gs, lead, v, g);
      if g > 0 {
        GroupEnd(gs, lead, v, g - 1);
      }
      if ch !in lead {
        DispatchRight(gs, lead, ch, p.value, g);
      }
    }
    if g < t.groupEnd {
      return Some(g);
    }
    return None;
  }

  /** What no group writes is not in the string. */
  lemma {:induction false} NowhereWritten(gs: seq<Argp>, ch: int)
    ensures (forall g :: 0 <= g < |gs| ==> ch !in GroupText(gs[g])) ==> ch !in ShortOf(gs)
  {
    hide ShortText;
    if gs != [] && ch in ShortOf(gs) {
      var p := gs[..|gs| - 1];
      NowhereWritten(p, ch);
      assert forall g :: 0 <= g < |p| ==> p[g] == gs[g];
    }
  }

  /** parser_parse_opt: the group that handles an option, and the key that it gets. */
  method ParseOpt(t: Tables, opt: int, ghost gs: seq<Argp>, ghost lead: seq<int>) returns (r: Option<(nat, int)>)
    requires t.At(gs, lead, |gs|, 0) && opt > 0 && GroupKey(opt) <= |gs|
    ensures r.Some? ==> r.value.0 < |gs|
    ensures opt >= USER_LIMIT ==> r == Some((GroupKey(opt) - 1, UserKey(opt)))
    ensures opt < USER_LIMIT && r.Some? ==> r.value.1 == opt
    ensures opt < USER_LIMIT && opt != COLON && opt !in lead && r.Some? ==> FirstShort(gs, r.value.0, opt)
    ensures opt < USER_LIMIT && opt != COLON && opt !in lead && r.None? ==>
      forall g :: 0 <= g < |gs| ==> !GroupDeclares(gs[g], opt)
    ensures opt == COLON && COLON !in lead ==> if r.Some? then FirstWith(gs, r.value.0, COLON)
      else COLON !in ShortOf(gs)
    ensures opt < USER_LIMIT && lead == [opt] && gs != [] ==> r == Some((0, opt))
  {
    hide Converted, Room, GroupText, GroupDeclares;
    if opt / USER_LIMIT == 0 {
      var g := ParseShort(t, opt, gs, lead);
      if opt != COLON {
        FirstWithIsFirst(gs, opt);
      }
      if g.None? {
        NowhereWritten(gs, opt);
        return None;
      }
      return Some((g.value, opt));
    } else {
      return Some((GroupKey(opt) - 1, UserKey(opt)));
    }
  }

  // ----- long options

  lemma Undeclared(gs: seq<Argp>, table: seq<Long>, name: string)
    requires TableFor(gs, |gs|, 0, table) && !HasName(table, name)
    ensures forall g: nat, i: nat :: !Declares(gs, g, i, name)
  {
    hide DeclaresLong;
    assert forall g: nat, i: nat :: Declares(gs, g, i, name) ==> Before(g, i, |gs|, 0);
  }

  lemma LongSource(gs: seq<Argp>, table: seq<Long>, j: nat) returns (g: nat, i: nat)
    requires TableFor(gs, |gs|, 0, table) && j < |table|
    ensures table[j].name.Some? && First(gs, g, i, table[j].name.value) && table[j] == EntryOf(Opts(gs[g]), i, g)
  {
    hide EntryOf, Declares;
    assert Sourced(gs, |gs|, 0, table[j]);
    g, i :| Justified(gs, |gs|, 0, table[j], g, i);
  }

  lemma TableIs(gs: seq<Argp>, lead: seq<int>, v: View)
    requires Converted(gs, lead, |gs|, 0, v)
    ensures TableFor(gs, |gs|, 0, v.long)
  {}

  /** Packed values of few groups are positive and name their group. */
  lemma PackRange(g: nat, key: int)
    requires g < 127
    ensures Pack(g, key) >= USER_LIMIT && GroupKey(Pack(g, key)) == g + 1
  {
    PackGroup(g, key);
  }

  /** An option arrives at a group, with its key if that fits. */
  ghost predicate Reaches(gs: seq<Argp>, g: nat, i: nat, r: Option<(nat, int)>)
    requires g < |gs| && i < |Opts(gs[g])|
  {
    var key := KeyOf(Opts(gs[g]), i);
    r.Some? && r.value.0 == g && (r.value.1 == key <==> -0x800000 <= key < 0x800000)
  }

  /** A long option that is spelled out: found in the table, and dispatched by its packed value.  It goes to the first
      group that declares it, and the key arrives unchanged exactly when it fits 24 bits with its sign. */
  method ParseLong(t: Tables, name: string, ghost gs: seq<Argp>, ghost lead: seq<int>) returns (r: Option<(nat, int)>)
    requires t.At(gs, lead, |gs|, 0) && |gs| <= 127
    ensures r.None? <==> forall g: nat, i: nat :: !Declares(gs, g, i, name)
    ensures forall g: nat, i: nat :: First(gs, g, i, name) ==> Reaches(gs, g, i, r)
  {
    hide Converted, Room, TableFor, Declares, First, Pack, UserKey, GroupKey, KeyOf, HasName;
    ghost var v := t.Now();
    TableIs(gs, lead, v);
    var j := t.FindLong(name);
    if j < 0 {
      Undeclared(gs, v.long, name);
      NoFirst(gs, name);
      return None;
    }
    assert v.long[j] == t.longOpts[j];
    ghost var g, i := LongSource(gs, v.long, j);
    FirstDeclares(gs, g, i, name);
    PackRange(g, KeyOf(Opts(gs[g]), i));
    PackExact(g, KeyOf(Opts(gs[g]), i));
    forall h: nat, k: nat | First(gs, h, k, name)
      ensures h == g && k == i
    {
      FirstUnique(gs, name, g, i, h, k);
    }
    r := ParseOpt(t, t.longOpts[j].val, gs, lead);
  }

  lemma FirstDeclares(gs: seq<Argp>, g: nat, i: nat, name: string)
    requires First(gs, g, i, name)
    ensures Declares(gs, g, i, name) && g < |gs| && i < |Opts(gs[g])|
  {}

  lemma NoFirst(gs: seq<Argp>, name: string)
    ensures (forall g: nat, i: nat :: !Declares(gs, g, i, name)) ==> forall g: nat, i: nat :: !First(gs, g, i, name)
  {}

  lemma FirstUnique(gs: seq<Argp>, name: string, g: nat, i: nat, h: nat, k: nat)
    requires First(gs, g, i, name) && First(gs, h, k, name)
    ensures g == h && i == k
  {
    assert !Before(h, k, g, i) && !Before(g, i, h, k);
  }
}
