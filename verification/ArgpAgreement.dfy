/**
 Help and parser look at the same trees with different eyes: help lists every entry with a letter, the parser leaves out
 the aliases of entries that are only documentation.
 */
module ArgpAgreement {
  import opened Optional
  import opened ArgpOptions
  import opened ArgpParser
  import opened ArgpHelp

  function ConcatOpts(gs: seq<Argp>): seq<Opt> {
    if gs == [] then [] else ConcatOpts(gs[..|gs| - 1]) + Opts(gs[|gs| - 1])
  }

  lemma {:induction false} ConcatAppend(a: seq<Argp>, b: seq<Argp>)
    ensures ConcatOpts(a + b) == ConcatOpts(a) + ConcatOpts(b)
  {
    hide Opts;
    if b == [] {
      assert a + b == a && ConcatOpts(b) == [];
    } else {
      var p, last := b[..|b| - 1], b[|b| - 1];
      assert (a + b)[..|a + b| - 1] == a + p && (a + b)[|a + b| - 1] == last;
      assert ConcatOpts(a + b) == ConcatOpts(a + p) + Opts(last) && ConcatOpts(b) == ConcatOpts(p) + Opts(last);
      hide ConcatOpts;
      ConcatAppend(a, p);
    }
  }

  /** The tables of the groups are all the tables. */
  lemma {:induction false} GroupsHaveAll(a: Argp)
    ensures ConcatOpts(Groups(a)) == AllOpts(a)
    decreases a
  {
    hide GroupsAll, AllOptsAll;
    GroupsAllHaveAll(a.children);
    var own := if HasGroup(a) then [a] else [];
    assert [a][..0] == [];
    assert ConcatOpts(own) == Opts(a);
    ConcatAppend(own, GroupsAll(a.children));
  }

  lemma {:induction false} GroupsAllHaveAll(cs: seq<Argp>)
    ensures ConcatOpts(GroupsAll(cs)) == AllOptsAll(cs)
    decreases cs
  {
    hide Groups, AllOpts;
    if cs != [] {
      GroupsAllHaveAll(cs[..|cs| - 1]);
      GroupsHaveAll(cs[|cs| - 1]);
      ConcatAppend(GroupsAll(cs[..|cs| - 1]), Groups(cs[|cs| - 1]));
    }
  }

  ghost predicate ListsAt(a: Argp, i: nat, ch: int) {
    i < |Opts(a)| && IsShort(Opts(a)[i]) && Opts(a)[i].key == ch
  }

  lemma {:induction false} ListedBy(gs: seq<Argp>, ch: int) returns (g: nat, i: nat)
    requires ch in Letters(ConcatOpts(gs))
    ensures g < |gs| && ListsAt(gs[g], i, ch)
  {
    var p, a := gs[..|gs| - 1], gs[|gs| - 1];
    hide Letters, Opts, IsShort;
    LettersUnion(ConcatOpts(p), Opts(a), ch);
    if ch in Letters(ConcatOpts(p)) {
      g, i := ListedBy(p, ch);
    } else {
      LettersHave(Opts(a), ch);
      g := |p|;
      i :| 0 <= i < |Opts(a)| && IsShort(Opts(a)[i]) && Opts(a)[i].key == ch;
    }
  }

  lemma {:induction false} ListedIn(gs: seq<Argp>, g: nat, i: nat, ch: int)
    requires g < |gs| && ListsAt(gs[g], i, ch)
    ensures ch in Letters(ConcatOpts(gs))
  {
    var p, a := gs[..|gs| - 1], gs[|gs| - 1];
    hide Letters, Opts, IsShort;
    LettersUnion(ConcatOpts(p), Opts(a), ch);
    if g < |p| {
      ListedIn(p, g, i, ch);
    } else {
      LettersHave(Opts(a), ch);
    }
  }

  /** The parser accepts no letter that help does not list. */
  lemma AcceptedIsListed(a: Argp, ch: int)
    requires Accepts(Groups(a), ch)
    ensures ch in Letters(AllOpts(a))
  {
    hide Letters, AllOpts, Groups;
    GroupsHaveAll(a);
    var gs := Groups(a);
    var g :| 0 <= g < |gs| && GroupDeclares(gs[g], ch);
    var i :| 0 <= i < |Opts(gs[g])| && DeclaresShort(Opts(gs[g]), i, ch);
    ListedIn(gs, g, i, ch);
  }

  /** An alias, with a letter, of an entry that is only documentation. */
  ghost predicate DocAlias(opts: seq<Opt>, i: nat)
    requires i < |opts|
  {
    opts[i].alias && IsShort(opts[i]) && opts[Real(opts, i)].doc
  }

  /** Every alias of a documentation entry has a letter that some option has as well. */
  ghost predicate AliasesCovered(gs: seq<Argp>) {
    forall g, i :: 0 <= g < |gs| && 0 <= i < |Opts(gs[g])| && DocAlias(Opts(gs[g]), i) ==>
      Accepts(gs, Opts(gs[g])[i].key)
  }

  /** Help lists exactly the letters that the parser accepts, if and only if that is so. */
  lemma HelpAgrees(a: Argp)
    ensures (forall ch :: ch in Letters(AllOpts(a)) <==> Accepts(Groups(a), ch)) <==> AliasesCovered(Groups(a))
  {
    hide Letters, AllOpts, Groups, Accepts, IsShort, Real;
    var gs := Groups(a);
    GroupsHaveAll(a);
    forall ch | ch in Letters(AllOpts(a)) && !Accepts(gs, ch)
      ensures !AliasesCovered(gs)
    {
      var g, i := ListedBy(gs, ch);
      NotAccepted(gs, g, i, ch);
    }
    forall ch | Accepts(gs, ch)
      ensures ch in Letters(AllOpts(a))
    {
      AcceptedIsListed(a, ch);
    }
    forall g, i | 0 <= g < |gs| && 0 <= i < |Opts(gs[g])| && DocAlias(Opts(gs[g]), i)
      ensures Opts(gs[g])[i].key in Letters(AllOpts(a))
    {
      ListedIn(gs, g, i, Opts(gs[g])[i].key);
    }
  }

  lemma NotAccepted(gs: seq<Argp>, g: nat, i: nat, ch: int)
    requires g < |gs| && ListsAt(gs[g], i, ch) && !Accepts(gs, ch)
    ensures DocAlias(Opts(gs[g]), i)
  {
    if Active(Opts(gs[g]), i) {
      assert DeclaresShort(Opts(gs[g]), i, ch);
      assert GroupDeclares(gs[g], ch);
    }
  }

  /** Such an alias: help lists -x, and the parser does not know it. */
  lemma StrayAlias()
    ensures var doc := Opt(Some("note"), 0, false, false, false, false, true);
            var alias := Opt(None, 120, false, false, false, true, false);
            var a := Argp(Some([doc, alias]), true, []);
            120 in Letters(AllOpts(a)) && !Accepts(Groups(a), 120)
  {
    var doc := Opt(Some("note"), 0, false, false, false, false, true);
    var alias := Opt(None, 120, false, false, false, true, false);
    var a := Argp(Some([doc, alias]), true, []);
    assert Groups(a) == [a];
    assert Real([doc, alias], 1) == Real([doc, alias], 0) == 0;
    assert !Active(Opts(a), 1) && !DeclaresShort(Opts(a), 0, 120) && !DeclaresShort(Opts(a), 1, 120);
    assert !GroupDeclares(a, 120);
    hide Letters, AllOpts, Groups;
    GroupsHaveAll(a);
    ListedIn([a], 0, 1, 120);
  }
}
