/**
 What becomes of the lines that gencat reads (glibc-2.27/catgets/gencat.c, read_input_file): the messages at the end are
 exactly those of the accepted lines, in the sets they were given for.
 */
module CatalogRun {
  import opened Optional
  import opened CatalogInput

  /** A message in a set, by the number of the set. */
  ghost predicate Holds(sets: seq<MessageSet>, number: nat, m: Message) {
    exists k :: 0 <= k < |sets| && sets[k].number == number && m in Contents(sets[k].messages)
  }

  /** The line is a message, and it is not rejected: its number is not zero and not given before in the current set, or
      its name is new there. */
  ghost predicate Accepted(s: Lists, d: Directive) {
    match d
    case SetNumber(_) => false
    case SetSymbol(_) => false
    case NumberedMessage(n, _) => n > 0 && forall m :: Holds(s.sets, s.current, m) && m.number == n ==> m.symbol.Some?
    case SymbolicMessage(ident, _) => forall m :: Holds(s.sets, s.current, m) ==> m.symbol != Some(ident)
  }

  /** The message is the one of the line: with its number, or with its name and whatever number. */
  ghost predicate IsOf(m: Message, d: Directive) {
    match d
    case SetNumber(_) => false
    case SetSymbol(_) => false
    case NumberedMessage(n, text) => m == Message(n, text, None)
    case SymbolicMessage(ident, text) => m.symbol == Some(ident) && m.text == text
  }

  ghost predicate Present(sets: seq<MessageSet>, number: nat, d: Directive) {
    exists m :: Holds(sets, number, m) && IsOf(m, d)
  }

  /** The same message, up to an automatic number. */
  ghost predicate Same(a: Message, b: Message) {
    a.text == b.text && a.symbol == b.symbol && (a.symbol.None? ==> a.number == b.number)
  }

  lemma SameIsOf(a: Message, b: Message, d: Directive)
    requires Same(a, b)
    ensures IsOf(a, d) <==> IsOf(b, d)
  {}

  // ----- one line

  lemma HoldsAt(sets: seq<MessageSet>, k: nat, m: Message)
    requires GoodSets(sets) && k < |sets|
    ensures Holds(sets, sets[k].number, m) <==> m in Contents(sets[k].messages)
  {
    hide GoodSet;
  }

  /** An accepted line is there. */
  lemma LineAdds(s: Lists, d: Directive, t: Lists)
    requires GoodLists(s) && GoodLists(t) && StepSpec(s, d, t) && Accepted(s, d)
    ensures Present(t.sets, s.current, d)
  {
    hide Holds, GoodSets, NumberedSpec, SymbolicSpec, HasSet;
    match d
    case NumberedMessage(n, text) =>
      var k: nat :| OnlyAt(s.sets, k, t.sets) && s.sets[k].number == s.current &&
          NumberedSpec(s.sets[k], n, text, t.sets[k]);
      NumberedThere(s.sets, t.sets, k, n, text);
    case SymbolicMessage(ident, text) =>
      var k: nat :| OnlyAt(s.sets, k, t.sets) && s.sets[k].number == s.current &&
          SymbolicSpec(s.sets[k], ident, text, t.sets[k]);
      SymbolicThere(s.sets, t.sets, k, ident, text);
  }

  lemma NumberedThere(a: seq<MessageSet>, b: seq<MessageSet>, k: nat, n: nat, text: Text)
    requires GoodSets(a) && GoodSets(b) && k < |a| == |b| && a[k].number == b[k].number &&
      NumberedSpec(a[k], n, text, b[k])
    requires n > 0 && forall m :: Holds(a, a[k].number, m) && m.number == n ==> m.symbol.Some?
    ensures Holds(b, b[k].number, Message(n, text, None))
  {
    HoldsAt(b, k, Message(n, text, None));
    if m :| Clash(a[k].messages, n, m) {
      HoldsAt(a, k, m);
    }
  }

  lemma SymbolicThere(a: seq<MessageSet>, b: seq<MessageSet>, k: nat, ident: string, text: Text)
    requires GoodSets(a) && GoodSets(b) && k < |a| == |b| && a[k].number == b[k].number &&
      SymbolicSpec(a[k], ident, text, b[k])
    requires forall m :: Holds(a, a[k].number, m) ==> m.symbol != Some(ident)
    ensures Holds(b, b[k].number, Message(a[k].last + 1, text, Some(ident)))
  {
    HoldsAt(b, k, Message(a[k].last + 1, text, Some(ident)));
    if m :| m in a[k].messages && m.symbol == Some(ident) {
      HoldsAt(a, k, m);
    }
  }

  /** What is there was there before, or is the accepted line's. */
  ghost predicate Explained(s: Lists, d: Directive, number: nat, m: Message) {
    || (exists o :: Holds(s.sets, number, o) && Same(o, m))
    || (Accepted(s, d) && s.current == number && IsOf(m, d))
  }

  lemma LineExplains(s: Lists, d: Directive, t: Lists, number: nat, m: Message)
    requires GoodLists(s) && GoodLists(t) && StepSpec(s, d, t) && Holds(t.sets, number, m)
    ensures Explained(s, d, number, m)
  {
    hide GoodSets, NumberedSpec, SymbolicSpec, Accepted, Holds, Selected, IsOf, NameUsed, HasSet;
    match d
    case SetNumber(n) =>
      if n != 0 {
        SelectedHolds(s.sets, n, None, t.sets, number, m);
      }
      assert Same(m, m);
    case SetSymbol(name) =>
      if !NameUsed(s.sets, name) {
        SelectedHolds(s.sets, t.lastSet, Some(name), t.sets, number, m);
      }
      assert Same(m, m);
    case NumberedMessage(n, text) =>
      var k: nat :| OnlyAt(s.sets, k, t.sets) && s.sets[k].number == s.current &&
          NumberedSpec(s.sets[k], n, text, t.sets[k]);
      NumberedExplains(s, d, t, k, number, m);
    case SymbolicMessage(ident, text) =>
      var k: nat :| OnlyAt(s.sets, k, t.sets) && s.sets[k].number == s.current &&
          SymbolicSpec(s.sets[k], ident, text, t.sets[k]);
      SymbolicExplains(s, d, t, k, number, m);
  }

  lemma SelectedHolds(a: seq<MessageSet>, n: nat, symbol: Option<string>, b: seq<MessageSet>, number: nat, m: Message)
    requires Selected(a, n, symbol, b) && Holds(b, number, m)
    ensures Holds(a, number, m)
  {
    hide HasSet;
    var j :| 0 <= j < |b| && b[j].number == number && m in Contents(b[j].messages);
    if |b| == |a| {
      assert a[j].number == number && a[j].messages == b[j].messages;
    } else {
      assert j > 0 && a[j - 1].number == number && a[j - 1].messages == b[j].messages;
    }
  }

  lemma NumberedExplains(s: Lists, d: Directive, t: Lists, k: nat, number: nat, m: Message)
    requires GoodLists(s) && GoodLists(t) && d.NumberedMessage? && Holds(t.sets, number, m)
    requires OnlyAt(s.sets, k, t.sets) && s.sets[k].number == s.current &&
      NumberedSpec(s.sets[k], d.n, d.text, t.sets[k])
    ensures Explained(s, d, number, m)
  {
    hide GoodSet;
    assert Same(m, m);
    var a := s.sets[k];
    if number != s.current {
      HoldsOther(s.sets, k, t.sets[k], number, m);
    } else {
      HoldsAt(t.sets, k, m);
      HoldsAt(s.sets, k, m);
      hide Holds;
      if !Holds(s.sets, number, m) {
        if c :| Clash(a.messages, d.n, c) {
          HoldsAt(s.sets, k, c);
          assert Same(c, c.(number := a.last + 1));
          ClashAccepted(s, d, k, c);
        } else {
          FreeAccepted(s, d, k);
        }
      }
    }
  }

  lemma HoldsOther(a: seq<MessageSet>, k: nat, s: MessageSet, number: nat, m: Message)
    requires k < |a| && s.number == a[k].number != number
    ensures Holds(a[k := s], number, m) <==> Holds(a, number, m)
  {
    var b := a[k := s];
    assert forall j :: 0 <= j < |a| && j != k ==> a[j] == b[j];
  }

  lemma ClashAccepted(s: Lists, d: Directive, k: nat, c: Message)
    requires GoodLists(s) && d.NumberedMessage? && k < |s.sets| && s.sets[k].number == s.current
    requires Clash(s.sets[k].messages, d.n, c)
    ensures c.symbol.Some? ==> Accepted(s, d)
  {
    forall m | Holds(s.sets, s.current, m) && m.number == d.n
      ensures m == c
    {
      HoldsAt(s.sets, k, m);
      var i :| 0 <= i < |s.sets[k].messages| && s.sets[k].messages[i] == c;
      UniqueClash(s.sets[k].messages, d.n, i);
      assert Clash(s.sets[k].messages, d.n, m);
    }
    var i :| 0 <= i < |s.sets[k].messages| && s.sets[k].messages[i] == c;
  }

  lemma FreeAccepted(s: Lists, d: Directive, k: nat)
    requires GoodLists(s) && d.NumberedMessage? && k < |s.sets| && s.sets[k].number == s.current
    requires d.n > 0 && forall c :: !Clash(s.sets[k].messages, d.n, c)
    ensures Accepted(s, d)
  {
    forall m | Holds(s.sets, s.current, m)
      ensures m.number != d.n
    {
      HoldsAt(s.sets, k, m);
      assert !Clash(s.sets[k].messages, d.n, m);
    }
  }

  lemma SymbolicExplains(s: Lists, d: Directive, t: Lists, k: nat, number: nat, m: Message)
    requires GoodLists(s) && GoodLists(t) && d.SymbolicMessage? && Holds(t.sets, number, m)
    requires OnlyAt(s.sets, k, t.sets) && s.sets[k].number == s.current &&
      SymbolicSpec(s.sets[k], d.ident, d.text, t.sets[k])
    ensures Explained(s, d, number, m)
  {
    hide GoodSet;
    assert Same(m, m);
    if number != s.current {
      HoldsOther(s.sets, k, t.sets[k], number, m);
    } else {
      HoldsAt(t.sets, k, m);
      HoldsAt(s.sets, k, m);
      if !Holds(s.sets, number, m) {
        forall o | Holds(s.sets, s.current, o)
          ensures o.symbol != Some(d.ident)
        {
          HoldsAt(s.sets, k, o);
        }
      }
    }
  }

  // ----- whole runs

  lemma PresentKept(a: seq<MessageSet>, b: seq<MessageSet>, number: nat, d: Directive)
    requires KeepsAll(a, b) && Present(a, number, d)
    ensures Present(b, number, d)
  {
    var m :| Holds(a, number, m) && IsOf(m, d);
    var k :| 0 <= k < |a| && a[k].number == number && m in Contents(a[k].messages);
    assert KeptSet(a[k], b);
    var j :| 0 <= j < |b| && Keeps(a[k], b[j]);
    assert Kept(m, b[j]);
    if m.symbol.None? {
      assert Holds(b, number, m);
    } else {
      var n :| m.(number := n) in Contents(b[j].messages);
      assert Holds(b, number, m.(number := n));
    }
  }

  /**
   The message of every accepted line is there at the end, in the set that was current; a numbered
   one has its number.
   */
  lemma {:induction false} AcceptedStays(states: seq<Lists>, ds: seq<Directive>, i: nat, j: nat)
    requires Run(states, ds) && i < j < |states| && Accepted(states[i], ds[i])
    ensures Present(states[j].sets, states[i].current, ds[i])
    decreases j
  {
    hide GoodLists, StepSpec, KeepsAll, Accepted, Present;
    if j == i + 1 {
      LineAdds(states[i], ds[i], states[j]);
    } else {
      AcceptedStays(states, ds, i, j - 1);
      assert KeepsAll(states[j - 1].sets, states[j].sets);
      PresentKept(states[j - 1].sets, states[j].sets, states[i].current, ds[i]);
    }
  }

  /** Nothing has been read yet. */
  ghost predicate Blank(s: Lists) {
    forall number, m :: !Holds(s.sets, number, m)
  }

  /** The line that a message comes from. */
  ghost predicate From(states: seq<Lists>, ds: seq<Directive>, i: nat, number: nat, m: Message) {
    i < |ds| < |states| && Accepted(states[i], ds[i]) && states[i].current == number && IsOf(m, ds[i])
  }

  /** Every message that is there at any time is that of an accepted line. */
  lemma {:induction false} OnlyAccepted(states: seq<Lists>, ds: seq<Directive>, j: nat, number: nat, m: Message)
    returns (i: nat)
    requires Run(states, ds) && Blank(states[0]) && j < |states| && Holds(states[j].sets, number, m)
    ensures i < j && From(states, ds, i, number, m)
    decreases j
  {
    hide GoodLists, StepSpec, KeepsAll, Accepted, Holds;
    assert j > 0;
    LineExplains(states[j - 1], ds[j - 1], states[j], number, m);
    if o :| Holds(states[j - 1].sets, number, o) && Same(o, m) {
      i := OnlyAccepted(states, ds, j - 1, number, o);
      SameIsOf(o, m, ds[i]);
    } else {
      i := j - 1;
    }
  }

  /** The start of gencat. */
  lemma StartIsBlank()
    ensures Blank(NewLists())
  {}
}
