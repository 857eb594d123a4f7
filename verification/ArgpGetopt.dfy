/**
 Short options on their way through getopt (glibc-2.27/posix/getopt.c, _getopt_internal_r, from the option character on)
 to the groups (glibc-2.27/argp/argp-parse.c, parser_parse_next and parser_parse_opt).
 */
module ArgpGetopt {
  import opened Optional
  import opened ArgpOptions
  import opened ArgpTables
  import opened ArgpParser

  const SEMICOLON := ';' as int
  const LETTER_W := 'W' as int

  /** What getopt makes of an option character: an error, a long option in disguise, or a code for the parser. */
  datatype Code = Rejected | NamesLong | Delivered(opt: int)

  /** getopt takes a first '-' or '+' as the order of arguments, whoever put it there. */
  function Strip(short: seq<int>): seq<int> {
    if short != [] && (short[0] == MINUS || short[0] == PLUS) then short[1..] else short
  }

  ghost predicate StartsWithColon(optstring: seq<int>) {
    optstring != [] && optstring[0] == COLON
  }

  /** The character at k, or the NUL that ends the string. */
  function Peek(optstring: seq<int>, k: nat): int {
    if k < |optstring| then optstring[k] else 0
  }

  /** A letter 'W' with a semicolon behind it stands for long options. */
  ghost predicate Disguised(optstring: seq<int>, c: int) {
    c == LETTER_W && exists k: nat :: FirstAt(optstring, c, k) && Peek(optstring, k + 1) == SEMICOLON
  }

  /** The letter does not go without an argument: one colon behind it, or a disguised long option. */
  ghost predicate Demands(optstring: seq<int>, c: int) {
    || Disguised(optstring, c)
    || exists k: nat :: FirstAt(optstring, c, k) && Peek(optstring, k + 1) == COLON && Peek(optstring, k + 2) != COLON
  }

  ghost predicate Known(optstring: seq<int>, c: int) {
    c in optstring && c != COLON && c != SEMICOLON
  }

  /**
   What getopt answers for a letter.  `missing` says that the command line ends where the argument
   of the letter should be.
   */
  ghost predicate CodeFor(optstring: seq<int>, c: int, missing: bool, r: Code) {
    if !Known(optstring, c) then r.Rejected?
    else if missing && Demands(optstring, c) then
      (if StartsWithColon(optstring) then r == Delivered(COLON) else r.Rejected?)
    else if Disguised(optstring, c) then r.NamesLong?
    else r == Delivered(c)
  }

  /** One option character. */
  method ShortCode(optstring: seq<int>, c: int, missing: bool) returns (r: Code)
    requires c > 0
    ensures CodeFor(optstring, c, missing, r)
  {
    var temp := 0;
    while temp < |optstring| && optstring[temp] != c
      invariant 0 <= temp <= |optstring| && c !in optstring[..temp]
    {
      temp := temp + 1;
    }
    if temp == |optstring| || c == COLON || c == SEMICOLON {
      return Rejected;
    }
    FirstIs(optstring, c, temp);
    var next := if temp + 1 < |optstring| then optstring[temp + 1] else 0;
    var second := if temp + 2 < |optstring| then optstring[temp + 2] else 0;
    if c == LETTER_W && next == SEMICOLON {
      if missing {
        return if optstring[0] == COLON then Delivered(COLON) else Rejected;
      }
      return NamesLong;
    }
    if next == COLON && second != COLON && missing {
      return if optstring[0] == COLON then Delivered(COLON) else Rejected;
    }
    return Delivered(c);
  }

  lemma FirstIs(s: seq<int>, c: int, k: nat)
    requires k < |s| && s[k] == c && c !in s[..k]
    ensures FirstAt(s, c, k) && forall j: nat :: FirstAt(s, c, j) ==> j == k
  {}

  // ----- where the string starts

  lemma NoText(opts: seq<Opt>)
    ensures ShortText(opts, 0) == []
  {}

  lemma {:induction false} TextContinues(opts: seq<Opt>, n: nat, k: nat)
    requires n <= k <= |opts|
    ensures ShortText(opts, n) <= ShortText(opts, k)
  {
    hide Chunk;
    if n < k {
      TextContinues(opts, n, k - 1);
    }
  }

  lemma ChunkStarts(opts: seq<Opt>, i: nat)
    requires i < |opts|
    ensures Chunk(opts, i) != [] <==> DeclaresShort(opts, i, opts[i].key)
    ensures Chunk(opts, i) != [] ==> Chunk(opts, i)[0] == opts[i].key
  {
    hide Real;
  }

  /** Where the characters of an entry end, a letter that is declared starts. */
  lemma {:induction false} LetterAfter(opts: seq<Opt>, n: nat, k: nat) returns (i: nat)
    requires n <= k <= |opts| && |ShortText(opts, n)| < |ShortText(opts, k)|
    ensures i < k && DeclaresShort(opts, i, ShortText(opts, k)[|ShortText(opts, n)|])
  {
    hide Chunk, DeclaresShort;
    var last := Chunk(opts, k - 1);
    assert ShortText(opts, k) == ShortText(opts, k - 1) + last;
    hide ShortText;
    TextContinues(opts, n, k - 1);
    if |ShortText(opts, n)| < |ShortText(opts, k - 1)| {
      i := LetterAfter(opts, n, k - 1);
    } else {
      i := k - 1;
      ChunkStarts(opts, i);
    }
  }

  lemma ShortLast(gs: seq<Argp>)
    requires gs != []
    ensures ShortOf(gs) == ShortOf(gs[..|gs| - 1]) + GroupText(gs[|gs| - 1])
  {}

  lemma {:induction false} FirstGroup(gs: seq<Argp>) returns (g: nat)
    requires ShortOf(gs) != []
    ensures g < |gs| && GroupText(gs[g]) != [] && GroupText(gs[g])[0] == ShortOf(gs)[0]
    ensures forall h :: 0 <= h < g ==> GroupText(gs[h]) == []
  {
    hide GroupText;
    var p := gs[..|gs| - 1];
    ShortLast(gs);
    hide ShortOf;
    if ShortOf(p) != [] {
      g := FirstGroup(p);
      assert p[g] == gs[g] && forall h :: 0 <= h < g ==> p[h] == gs[h];
    } else {
      g := |p|;
      forall h | 0 <= h < g
        ensures GroupText(gs[h]) == []
      {
        EmptyGroups(p, h);
      }
    }
  }

  lemma {:induction false} EmptyGroups(gs: seq<Argp>, h: nat)
    requires ShortOf(gs) == [] && h < |gs|
    ensures GroupText(gs[h]) == []
  {
    hide GroupText;
    ShortLast(gs);
    hide ShortOf;
    if h < |gs| - 1 {
      EmptyGroups(gs[..|gs| - 1], h);
    }
  }

  /** If the letters start with a colon, the first group that writes one declares it, and no earlier one does. */
  lemma ColonFirst(gs: seq<Argp>, g: nat)
    requires StartsWithColon(ShortOf(gs)) && FirstWith(gs, g, COLON)
    ensures FirstShort(gs, g, COLON)
  {
    hide ShortText, DeclaresShort, ShortOf;
    var f := FirstGroup(gs);
    assert f == g by {
      assert GroupText(gs[f])[0] in GroupText(gs[f]);
    }
    NoText(Opts(gs[g]));
    var i := LetterAfter(Opts(gs[g]), 0, |Opts(gs[g])|);
    assert GroupDeclares(gs[g], COLON);
    forall h | 0 <= h < g
      ensures !GroupDeclares(gs[h], COLON)
    {
      NotWritten(gs[h], COLON);
    }
  }

  /** A letter that is declared is written. */
  lemma NotWritten(a: Argp, ch: int)
    requires ch !in GroupText(a)
    ensures !GroupDeclares(a, ch)
  {
    hide ShortText, Chunk, DeclaresShort;
    forall i | 0 <= i < |Opts(a)|
      ensures !DeclaresShort(Opts(a), i, ch)
    {
      DeclaredIsWritten(Opts(a), i, ch);
      if ch in Chunk(Opts(a), i) {
        WritesIn(Opts(a), |Opts(a)|, i, ch);
      }
    }
  }

  lemma DeclaredIsWritten(opts: seq<Opt>, i: nat, ch: int)
    requires i < |opts|
    ensures DeclaresShort(opts, i, ch) ==> ch in Chunk(opts, i)
  {
    hide Real;
  }

  // ----- from the command line to a group

  ghost predicate Ordinary(c: int) {
    c != COLON && c != SEMICOLON && c != MINUS && c != PLUS
  }

  /** The order that was not asked for: no flag set one, but the first letter is taken for it. */
  ghost predicate Swallowed(gs: seq<Argp>, lead: seq<int>) {
    lead == [] && ShortOf(gs) != [] && (ShortOf(gs)[0] == MINUS || ShortOf(gs)[0] == PLUS)
  }

  /** The option string that getopt works with. */
  ghost function Stripped(gs: seq<Argp>, lead: seq<int>): seq<int> {
    Strip(lead + ShortOf(gs))
  }

  /**
   An option character on the command line, through getopt, to a group.  Every letter that getopt
   delivers reaches a group.  An ordinary one is known to getopt exactly if some group declares it,
   and it reaches the first that does.  A '-' or '+' is known if it is left after stripping, and
   reaches its first declarer unless it is also the leading character, which is the first group's.
   A colon is delivered only for a missing argument; it reaches its first declarer, except when the
   first letter was swallowed and the group does not declare it.
   */
  method HandleLetter(t: Tables, c: int, missing: bool, ghost gs: seq<Argp>, ghost lead: seq<int>)
      returns (code: Code, r: Option<(nat, int)>)
    requires t.At(gs, lead, |gs|, 0) && 0 < c < 256 && (lead == [] || lead == [MINUS] || lead == [PLUS])
    ensures CodeFor(Stripped(gs, lead), c, missing, code)
    ensures Ordinary(c) ==> (c in Stripped(gs, lead) <==> Accepts(gs, c))
    ensures r.Some? <==> code.Delivered?
    ensures r.Some? ==> r.value.1 == code.opt && r.value.0 < |gs|
    ensures code == Delivered(c) ==> if lead == [c] then r.value.0 == 0 else FirstShort(gs, r.value.0, c)
    ensures code == Delivered(COLON) ==>
              (FirstShort(gs, r.value.0, COLON) <==> !Swallowed(gs, lead) || GroupDeclares(gs[r.value.0], COLON))
  {
    hide Converted, Room, ShortOf, GroupDeclares, FirstWith, Disguised, Demands;
    TextIs(gs, lead, t.Now());
    var short := t.shortOpts[..t.shortEnd];
    assert short == lead + ShortOf(gs);
    var optstring := Strip(short);
    code := ShortCode(optstring, c, missing);
    if c != COLON {
      StripHas(gs, lead, c);
    }
    if !code.Delivered? {
      return code, None;
    }
    SmallCode(code.opt);
    r := ParseOpt(t, code.opt, gs, lead);
    if code.opt == COLON {
      ColonDelivered(gs, lead, r);
    }
  }

  lemma StripMember(lead: seq<int>, text: seq<int>, c: int)
    requires (lead == [] || lead == [MINUS] || lead == [PLUS]) && Ordinary(c)
    ensures c in Strip(lead + text) <==> c in text
  {
    if lead == [] {
      assert lead + text == text;
      assert text != [] ==> text == [text[0]] + text[1..];
    } else {
      assert (lead + text)[1..] == text;
    }
  }

  lemma StripSubset(lead: seq<int>, text: seq<int>, c: int)
    requires (lead == [] || lead == [MINUS] || lead == [PLUS]) && c in Strip(lead + text)
    ensures c in text
  {
    if lead == [] {
      assert lead + text == text;
    } else {
      assert (lead + text)[1..] == text;
    }
  }

  lemma StripHas(gs: seq<Argp>, lead: seq<int>, c: int)
    requires (lead == [] || lead == [MINUS] || lead == [PLUS]) && c != COLON
    ensures c in Stripped(gs, lead) ==> Accepts(gs, c)
    ensures Ordinary(c) ==> (c in Stripped(gs, lead) <==> Accepts(gs, c))
  {
    hide ShortOf, GroupDeclares, GroupText, Strip;
    FirstWithIsFirst(gs, c);
    NowhereWritten(gs, c);
    if c in Stripped(gs, lead) {
      StripSubset(lead, ShortOf(gs), c);
    }
    if Ordinary(c) && Accepts(gs, c) {
      StripMember(lead, ShortOf(gs), c);
      var g :| 0 <= g < |gs| && GroupDeclares(gs[g], c);
      WrittenSomewhere(gs, g, c);
    }
  }

  lemma WrittenSomewhere(gs: seq<Argp>, g: nat, c: int)
    requires g < |gs| && c in GroupText(gs[g])
    ensures c in ShortOf(gs)
  {
    hide ShortOf, GroupText;
    var j :| 0 <= j < |GroupText(gs[g])| && GroupText(gs[g])[j] == c;
    CharAt(gs, [], g, j);
    assert [] + ShortOf(gs) == ShortOf(gs);
  }

  lemma ColonDelivered(gs: seq<Argp>, lead: seq<int>, r: Option<(nat, int)>)
    requires lead == [] || lead == [MINUS] || lead == [PLUS]
    requires StartsWithColon(Stripped(gs, lead))
    requires if r.Some? then FirstWith(gs, r.value.0, COLON) else COLON !in ShortOf(gs)
    ensures r.Some? && r.value.0 < |gs|
    ensures FirstShort(gs, r.value.0, COLON) <==> !Swallowed(gs, lead) || GroupDeclares(gs[r.value.0], COLON)
  {
    hide ShortOf, GroupDeclares, GroupText;
    var all := lead + ShortOf(gs);
    assert all == [all[0]] + all[1..];
    assert Strip(all)[0] in Strip(all) && COLON in ShortOf(gs);
    if !Swallowed(gs, lead) {
      assert Strip(all) == ShortOf(gs);
      ColonFirst(gs, r.value.0);
    } else {
      forall h | 0 <= h < r.value.0
        ensures !GroupDeclares(gs[h], COLON)
      {
        NotWritten(gs[h], COLON);
      }
    }
  }

  // ----- whether a letter takes an argument

  /** The first entry, in preorder and then in table order, that declares a letter. */
  ghost predicate FirstEntry(gs: seq<Argp>, g: nat, i: nat, c: int) {
    && FirstShort(gs, g, c) && i < |Opts(gs[g])| && DeclaresShort(Opts(gs[g]), i, c)
    && forall j :: 0 <= j < i ==> !DeclaresShort(Opts(gs[g]), j, c)
  }

  /** The letters behind entry i of group g: what is left of its group, then the later groups. */
  ghost function Rest(gs: seq<Argp>, g: nat, i: nat): seq<int>
    requires g < |gs| && i < |Opts(gs[g])|
  {
    TextGrows(Opts(gs[g]), i + 1, |Opts(gs[g])|);
    GroupText(gs[g])[|ShortText(Opts(gs[g]), i + 1)|..] + ShortOf(gs[g + 1..])
  }

  lemma TextSplits(gs: seq<Argp>, g: nat, i: nat)
    requires g < |gs| && i < |Opts(gs[g])|
    ensures ShortOf(gs) == TextAt(gs, g, i) + (Chunk(Opts(gs[g]), i) + Rest(gs, g, i))
  {
    hide ShortText, Chunk, ShortOf;
    var opts := Opts(gs[g]);
    var a, b, c := ShortOf(gs[..g]), ShortText(opts, i), Chunk(opts, i);
    GroupSplits(opts, i);
    var rest, later := GroupText(gs[g])[|ShortText(opts, i + 1)|..], ShortOf(gs[g + 1..]);
    EndNext(gs, g);
    assert gs == gs[..g + 1] + gs[g + 1..];
    ShortAppend(gs[..g + 1], gs[g + 1..]);
    TextHere(gs, g, i);
    assert (a + (b + c + rest)) + later == (a + b) + (c + (rest + later));
  }

  lemma TextHere(gs: seq<Argp>, g: nat, i: nat)
    requires g < |gs| && i < |Opts(gs[g])|
    ensures TextAt(gs, g, i) == ShortOf(gs[..g]) + ShortText(Opts(gs[g]), i)
  {
    hide ShortOf;
  }

  lemma GroupSplits(opts: seq<Opt>, i: nat)
    requires i < |opts|
    ensures |ShortText(opts, i + 1)| <= |ShortText(opts, |opts|)|
    ensures ShortText(opts, |opts|)
         == ShortText(opts, i) + Chunk(opts, i) + ShortText(opts, |opts|)[|ShortText(opts, i + 1)|..]
  {
    hide Chunk;
    assert ShortText(opts, i + 1) == ShortText(opts, i) + Chunk(opts, i);
    hide ShortText;
    TextContinues(opts, i + 1, |opts|);
  }

  lemma NotBefore(gs: seq<Argp>, g: nat, i: nat, c: int)
    requires FirstEntry(gs, g, i, c) && c != COLON
    ensures c !in TextAt(gs, g, i)
  {
    hide ShortText, ShortOf, Chunk, DeclaresShort;
    var p, opts := gs[..g], Opts(gs[g]);
    FirstWithIsFirst(p, c);
    NowhereWritten(p, c);
    assert forall h :: 0 <= h < g ==> p[h] == gs[h];
    if i > 0 && c in ShortText(opts, i) {
      var j := WrittenBy(opts, i, c);
      ChunkHas(opts, j, c);
    }
  }

  lemma StripKeeps(lead: seq<int>, text: seq<int>, c: int, k: nat) returns (j: nat)
    requires (lead == [] || lead == [MINUS] || lead == [PLUS]) && Ordinary(c)
    requires k < |text| && text[k] == c && c !in text[..k]
    ensures var s := Strip(lead + text); j < |s| && s[j] == c && c !in s[..j] && s[j..] == text[k..]
  {
    var s := Strip(lead + text);
    if lead != [] {
      assert (lead + text)[1..] == text;
      j := k;
    } else {
      assert lead + text == text;
      if text[0] == MINUS || text[0] == PLUS {
        j := k - 1;
        assert s == text[1..] && s[..j] == text[..k][1..];
        assert s[j..] == text[k..];
      } else {
        j := k;
      }
    }
  }

  lemma PeekTail(s: seq<int>, j: nat, tail: seq<int>)
    requires j <= |s| && s[j..] == tail
    ensures forall d: nat :: Peek(s, j + d) == Peek(tail, d)
  {}

  /**
   When getopt asks for an argument, in terms of the tables: for a letter declared with a required
   argument, unless a letter ':' follows; and for one declared without, if a letter ':' follows, or
   if it is 'W' and a letter ';' follows.
   */
  lemma ArgumentAsked(gs: seq<Argp>, lead: seq<int>, g: nat, i: nat, c: int)
    requires (lead == [] || lead == [MINUS] || lead == [PLUS]) && Ordinary(c) && FirstEntry(gs, g, i, c)
    ensures var s, rest := Stripped(gs, lead), Rest(gs, g, i);
            var main := Opts(gs[g])[Real(Opts(gs[g]), i)];
            && (Disguised(s, c) <==> c == LETTER_W && !main.arg && Peek(rest, 0) == SEMICOLON)
            && (Demands(s, c) <==>
                 || Disguised(s, c)
                 || (main.arg && !main.optional && Peek(rest, 0) != COLON)
                 || (!main.arg && Peek(rest, 0) == COLON && Peek(rest, 1) != COLON))
  {
    hide ShortOf, Real, Rest, Stripped, FirstEntry, FirstAt;
    assert g < |gs| && i < |Opts(gs[g])| by { FirstEntryBounds(gs, g, i, c); }
    var k := AfterFirst(gs, lead, g, i, c);
  }

  /** The two characters behind the first occurrence of a letter, which is that of its first entry. */
  lemma AfterFirst(gs: seq<Argp>, lead: seq<int>, g: nat, i: nat, c: int) returns (k: nat)
    requires (lead == [] || lead == [MINUS] || lead == [PLUS]) && Ordinary(c) && FirstEntry(gs, g, i, c)
    ensures var s, rest := Stripped(gs, lead), Rest(gs, g, i);
            var main := Opts(gs[g])[Real(Opts(gs[g]), i)];
            && FirstAt(s, c, k) && (forall j: nat :: FirstAt(s, c, j) ==> j == k)
            && Peek(s, k + 1) == (if main.arg then COLON else Peek(rest, 0))
            && Peek(s, k + 2) == (if !main.arg then Peek(rest, 1) else if main.optional then COLON else Peek(rest, 0))
  {
    hide ShortOf, ShortText, Real, TextAt, Rest, Strip, GroupDeclares, Chunk;
    var opts, rest := Opts(gs[g]), Rest(gs, g, i);
    var tail, n := Chunk(opts, i) + rest, |TextAt(gs, g, i)|;
    TextSplits(gs, g, i);
    NotBefore(gs, g, i, c);
    assert ShortOf(gs)[..n] == TextAt(gs, g, i) && ShortOf(gs)[n..] == tail;
    ChunkStarts(opts, i);
    k := StripKeeps(lead, ShortOf(gs), c, n);
    var s := Stripped(gs, lead);
    FirstIs(s, c, k);
    PeekTail(s, k, tail);
    assert Peek(s, k + 1) == Peek(tail, 1) && Peek(s, k + 2) == Peek(tail, 2);
    TailPeeks(opts, i, rest);
  }

  lemma TailPeeks(opts: seq<Opt>, i: nat, rest: seq<int>)
    requires i < |opts| && Active(opts, i) && IsShort(opts[i])
    ensures var tail, main := Chunk(opts, i) + rest, opts[Real(opts, i)];
            && Peek(tail, 1) == (if main.arg then COLON else Peek(rest, 0))
            && Peek(tail, 2) == (if !main.arg then Peek(rest, 1) else if main.optional then COLON else Peek(rest, 0))
  {
    hide Real;
  }

  /** What follows the characters of an entry starts with a letter that is declared. */
  lemma RestStarts(gs: seq<Argp>, g: nat, i: nat)
    requires g < |gs| && i < |Opts(gs[g])| && Rest(gs, g, i) != []
    ensures Accepts(gs, Rest(gs, g, i)[0])
  {
    hide ShortText, ShortOf, DeclaresShort;
    var opts, later := Opts(gs[g]), gs[g + 1..];
    TextGrows(opts, i + 1, |opts|);
    if |ShortText(opts, i + 1)| < |GroupText(gs[g])| {
      var j := LetterAfter(opts, i + 1, |opts|);
      assert GroupDeclares(gs[g], Rest(gs, g, i)[0]);
    } else {
      assert Rest(gs, g, i) == ShortOf(later);
      var h := FirstGroup(later);
      NoText(Opts(later[h]));
      var j := LetterAfter(Opts(later[h]), 0, |Opts(later[h])|);
      assert later[h] == gs[g + 1 + h];
      assert GroupDeclares(gs[g + 1 + h], Rest(gs, g, i)[0]);
    }
  }

  /** Unless some group declares ':' or ';' as a letter, getopt asks for the arguments that the tables require. */
  lemma ArgumentsAsDeclared(gs: seq<Argp>, lead: seq<int>, g: nat, i: nat, c: int)
    requires (lead == [] || lead == [MINUS] || lead == [PLUS]) && Ordinary(c) && FirstEntry(gs, g, i, c)
    requires !Accepts(gs, COLON) && !Accepts(gs, SEMICOLON)
    ensures var main := Opts(gs[g])[Real(Opts(gs[g]), i)];
            !Disguised(Stripped(gs, lead), c) && (Demands(Stripped(gs, lead), c) <==> main.arg && !main.optional)
  {
    hide Rest, Stripped, Accepts, FirstEntry, Disguised, Demands, Real;
    assert g < |gs| && i < |Opts(gs[g])| by { FirstEntryBounds(gs, g, i, c); }
    ArgumentAsked(gs, lead, g, i, c);
    if Rest(gs, g, i) != [] {
      RestStarts(gs, g, i);
    }
  }

  lemma FirstEntryBounds(gs: seq<Argp>, g: nat, i: nat, c: int)
    requires FirstEntry(gs, g, i, c)
    ensures g < |gs| && i < |Opts(gs[g])|
  {}

  // ----- trees in which it is different

  /** An option that is just a letter, with or without an argument. */
  function Letter(key: int, arg: bool): Opt {
    Opt(None, key, arg, false, false, false, false)
  }

  lemma LetterText(opts: seq<Opt>, n: nat, key: int, arg: bool)
    requires n < |opts| && opts[n] == Letter(key, arg) && 32 <= key < 127
    ensures ShortText(opts, n + 1) == ShortText(opts, n) + (if arg then [key, COLON] else [key])
  {}

  lemma NextGroup(gs: seq<Argp>, g: Argp)
    ensures ShortOf([]) == [] && ShortOf(gs + [g]) == ShortOf(gs) + ShortText(Opts(g), |Opts(g)|)
  {
    assert (gs + [g])[..|gs|] == gs;
  }

  /**
   A tree whose first letter is a '+' with an argument: getopt takes the '+' for the order and the
   colon behind it for the wish to be silent, and reports a missing argument of -b with a colon that
   nobody declared.
   */
  lemma PlusSwallowed()
    ensures var gs := Groups(Argp(Some([Letter(PLUS, true), Letter(98, true)]), true, []));
            Swallowed(gs, []) && StartsWithColon(Stripped(gs, [])) && !Accepts(gs, COLON)
  {
    hide ShortText, ShortOf;
    var opts := [Letter(PLUS, true), Letter(98, true)];
    var a := Argp(Some(opts), true, []);
    assert Groups(a) == [a] && [] + [a] == [a];
    NoText(opts);
    LetterText(opts, 0, PLUS, true);
    LetterText(opts, 1, 98, true);
    NextGroup([], a);
    assert ShortText(opts, 2) == [PLUS, COLON, 98, COLON];
    assert ShortOf([a]) == [PLUS, COLON, 98, COLON];
    assert !DeclaresShort(opts, 0, COLON) && !DeclaresShort(opts, 1, COLON);
    assert !GroupDeclares(a, COLON);
  }

  /** A tree in which a letter goes astray: with ARGP_NO_ARGS a child's -+ reaches the first group. */
  lemma PlusAstray()
    ensures var child := Argp(Some([Letter(PLUS, false)]), true, []);
            var gs := Groups(Argp(Some([Letter(97, false)]), true, [child]));
            FirstShort(gs, 1, PLUS) && Lead(false, true) == [PLUS] && PLUS in Stripped(gs, Lead(false, true))
  {
    hide ShortText, ShortOf;
    var xs, ys := [Letter(97, false)], [Letter(PLUS, false)];
    var child := Argp(Some(ys), true, []);
    var tree := Argp(Some(xs), true, [child]);
    assert [child][..0] == [];
    assert GroupsAll([child]) == [child];
    assert Groups(tree) == [tree, child] && [tree] + [child] == [tree, child] && [] + [tree] == [tree];
    NoText(xs);
    NoText(ys);
    LetterText(xs, 0, 97, false);
    LetterText(ys, 0, PLUS, false);
    NextGroup([], tree);
    NextGroup([tree], child);
    assert ShortText(xs, 1) == [97] && ShortText(ys, 1) == [PLUS];
    assert ShortOf([tree]) == [97] && ShortOf([tree, child]) == [97, PLUS];
    assert DeclaresShort(ys, 0, PLUS) && !DeclaresShort(xs, 0, PLUS);
    assert GroupDeclares(child, PLUS) && !GroupDeclares(tree, PLUS);
  }

  /** Two letters in one table. */
  lemma PairText(a: int, b: int)
    requires 32 <= a < 127 && 32 <= b < 127 && a != MINUS && a != PLUS
    ensures Stripped(Groups(Argp(Some([Letter(a, false), Letter(b, false)]), true, [])), []) == [a, b]
  {
    hide ShortText, ShortOf;
    var opts := [Letter(a, false), Letter(b, false)];
    var argp := Argp(Some(opts), true, []);
    assert Groups(argp) == [argp] && [] + [argp] == [argp];
    NoText(opts);
    LetterText(opts, 0, a, false);
    LetterText(opts, 1, b, false);
    NextGroup([], argp);
    assert ShortText(opts, 2) == [a, b];
    assert ShortOf([argp]) == [a, b] && [] + [a, b] == [a, b];
  }

  /** Letters 'W' and ';' next to each other: -W is declared, but stands for long options. */
  lemma WDisguised()
    ensures var gs := Groups(Argp(Some([Letter(LETTER_W, false), Letter(SEMICOLON, false)]), true, []));
            Accepts(gs, LETTER_W) && Disguised(Stripped(gs, []), LETTER_W)
  {
    var opts := [Letter(LETTER_W, false), Letter(SEMICOLON, false)];
    var argp := Argp(Some(opts), true, []);
    PairText(LETTER_W, SEMICOLON);
    hide Stripped;
    assert Groups(argp) == [argp] && DeclaresShort(opts, 0, LETTER_W);
    assert GroupDeclares(argp, LETTER_W);
    FirstIs([LETTER_W, SEMICOLON], LETTER_W, 0);
  }

  /** A letter ':' behind a letter without an argument: getopt asks for one. */
  lemma ColonAsks()
    ensures var gs := Groups(Argp(Some([Letter(97, false), Letter(COLON, false)]), true, []));
            Demands(Stripped(gs, []), 97)
  {
    PairText(97, COLON);
    hide Stripped, Groups;
    FirstIs([97, COLON], 97, 0);
  }

  lemma SmallCode(c: int)
    requires 0 < c < 256
    ensures GroupKey(c) == 0 && c < USER_LIMIT
  {}
}
