/**
 What getopt is told about arguments (glibc-2.27/argp/argp-parse.c, convert_options): each long option
 as its main entry says, and in agreement with the letter of the same entry.
 */
module ArgpArguments {
  import opened ArgpOptions
  import opened ArgpConvert
  import opened ArgpTables
  import opened ArgpParser
  import opened ArgpGetopt

  /** The main entry of an alias: only aliases lie between, and it is none itself unless the table starts with one. */
  lemma {:induction false} MainEntry(opts: seq<Opt>, i: nat)
    requires i < |opts|
    ensures var r := Real(opts, i); (forall k :: r < k <= i ==> opts[k].alias) && (r == 0 || !opts[r].alias)
  {
    if opts[i].alias && i > 0 {
      MainEntry(opts, i - 1);
    }
  }

  /** The long option of a name is that of its first declaration, with the argument its main entry has. */
  lemma LongArgument(gs: seq<Argp>, lead: seq<int>, v: View, j: nat, g: nat, i: nat)
    requires Converted(gs, lead, |gs|, 0, v) && j < |v.long| && v.long[j].name.Some?
    requires First(gs, g, i, v.long[j].name.value)
    ensures var main := Opts(gs[g])[Real(Opts(gs[g]), i)];
            && (v.long[j].hasArg.NoArgument? <==> !main.arg)
            && (v.long[j].hasArg.OptionalArgument? <==> main.arg && main.optional)
            && (v.long[j].hasArg.RequiredArgument? <==> main.arg && !main.optional)
  {
    hide GroupsOk, TextAt, Pack, Real, DeclaresLong;
    assert Sourced(gs, |gs|, 0, v.long[j]);
    var h, k :| Justified(gs, |gs|, 0, v.long[j], h, k);
    OneFirst(gs, g, i, h, k, v.long[j].name.value);
  }

  ghost predicate FitsKey(key: int) {
    -0x800000 <= key < 0x800000
  }

  /**
   Its value holds the group and the key: the entry's own or, if that is zero, that of its main
   entry, unchanged if it fits 24 bits with its sign.
   */
  lemma LongValue(gs: seq<Argp>, lead: seq<int>, v: View, j: nat, g: nat, i: nat)
    requires Converted(gs, lead, |gs|, 0, v) && j < |v.long| && v.long[j].name.Some?
    requires First(gs, g, i, v.long[j].name.value) && g < 127
    ensures var own, main := Opts(gs[g])[i].key, Opts(gs[g])[Real(Opts(gs[g]), i)].key;
            && (own != 0 && FitsKey(own) ==> UserKey(v.long[j].val) == own)
            && (own == 0 && FitsKey(main) ==> UserKey(v.long[j].val) == main)
            && GroupKey(v.long[j].val) == g + 1
  {
    hide GroupsOk, TextAt, Pack, Real, DeclaresLong, UserKey, GroupKey;
    assert Sourced(gs, |gs|, 0, v.long[j]);
    var h, k :| Justified(gs, |gs|, 0, v.long[j], h, k);
    OneFirst(gs, g, i, h, k, v.long[j].name.value);
    PackExact(g, KeyOf(Opts(gs[g]), i));
    PackRange(g, KeyOf(Opts(gs[g]), i));
  }

  lemma OneFirst(gs: seq<Argp>, g: nat, i: nat, h: nat, k: nat, name: string)
    requires First(gs, g, i, name) && First(gs, h, k, name)
    ensures g == h && i == k
  {
    hide Declares;
    assert !Before(g, i, h, k) && !Before(h, k, g, i);
  }

  /** No colon stands behind the first occurrence of the letter. */
  ghost predicate Alone(optstring: seq<int>, c: int) {
    forall k: nat :: FirstAt(optstring, c, k) ==> Peek(optstring, k + 1) != COLON
  }

  lemma AloneAsDeclared(gs: seq<Argp>, lead: seq<int>, g: nat, i: nat, c: int)
    requires (lead == [] || lead == [MINUS] || lead == [PLUS]) && Ordinary(c) && FirstEntry(gs, g, i, c)
    requires !Accepts(gs, COLON)
    ensures Alone(Stripped(gs, lead), c) <==> !Opts(gs[g])[Real(Opts(gs[g]), i)].arg
  {
    hide Rest, Stripped, Accepts, FirstEntry, Real, FirstAt;
    assert g < |gs| && i < |Opts(gs[g])| by { FirstEntryBounds(gs, g, i, c); }
    var k := AfterFirst(gs, lead, g, i, c);
    if Rest(gs, g, i) != [] {
      RestStarts(gs, g, i);
    }
  }

  /**
   An entry that is the first with its letter and the first with its name: getopt is told the same
   of both.
   */
  lemma LongAgreesWithLetter(gs: seq<Argp>, lead: seq<int>, v: View, j: nat, g: nat, i: nat, c: int)
    requires Converted(gs, lead, |gs|, 0, v) && j < |v.long| && v.long[j].name.Some?
    requires First(gs, g, i, v.long[j].name.value) && FirstEntry(gs, g, i, c) && Ordinary(c)
    requires lead == [] || lead == [MINUS] || lead == [PLUS]
    requires !Accepts(gs, COLON) && !Accepts(gs, SEMICOLON)
    ensures v.long[j].hasArg.RequiredArgument? <==> Demands(Stripped(gs, lead), c)
    ensures v.long[j].hasArg.NoArgument? <==> Alone(Stripped(gs, lead), c)
  {
    hide Converted, First, FirstEntry, Accepts, Stripped, Demands, Alone, Real;
    assert g < |gs| && i < |Opts(gs[g])| by { FirstEntryBounds(gs, g, i, c); }
    LongArgument(gs, lead, v, j, g, i);
    ArgumentsAsDeclared(gs, lead, g, i, c);
    AloneAsDeclared(gs, lead, g, i, c);
  }
}
