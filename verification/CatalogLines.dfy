/**
 What the lines of the input mean (glibc-2.27/catgets/gencat.c, read_input_file), said of the lines
 before a line rather than of what has been collected: the set it belongs to, whether it is accepted
 and the number a named message gets.
 */
module CatalogLines {
  import opened Optional
  import opened CatalogInput
  import opened CatalogRun

  // ----- the set of a line

  /** Line j chooses a set: by a number that is not zero, or by a name that no set has. */
  ghost predicate Chooses(states: seq<Lists>, ds: seq<Directive>, j: nat)
    requires j < |ds| < |states|
  {
    match ds[j]
    case SetNumber(n) => n != 0
    case SetSymbol(name) => !NameUsed(states[j].sets, name)
    case NumberedMessage(_, _) => false
    case SymbolicMessage(_, _) => false
  }

  /** Line j is the last one before i that does. */
  ghost predicate LastChoice(states: seq<Lists>, ds: seq<Directive>, j: nat, i: nat)
    requires i <= |ds| < |states|
  {
    j < i && Chooses(states, ds, j) && forall k: nat :: j < k < i ==> !Chooses(states, ds, k)
  }

  /** Line k gives number g to a set, or has it assigned. */
  ghost predicate Gives(states: seq<Lists>, ds: seq<Directive>, k: nat, g: nat)
    requires k < |ds| < |states|
  {
    match ds[k]
    case SetNumber(n) => g == n
    case SetSymbol(name) => Chooses(states, ds, k) && states[k + 1].current == g + 1
    case NumberedMessage(_, _) => false
    case SymbolicMessage(_, _) => false
  }

  /** One more than the highest number of a set that a line before j gives or has assigned. */
  ghost predicate NextFree(states: seq<Lists>, ds: seq<Directive>, j: nat, g: nat)
    requires j < |ds| < |states|
  {
    && g > 0
    && (forall k: nat, h: nat :: k < j && Gives(states, ds, k, h) ==> h < g)
    && (g == 1 || exists k: nat, h: nat :: k < j && Gives(states, ds, k, h) && g == h + 1)
  }

  /**
   Messages after the first i lines go to set g: the one that the last choice names or, for a new
   name, gets assigned; set 1 before any choice.
   */
  ghost predicate BelongsTo(states: seq<Lists>, ds: seq<Directive>, i: nat, g: int)
    requires i <= |ds| < |states|
  {
    && ((forall j: nat :: j < i ==> !Chooses(states, ds, j)) ==> g == 1)
    && (forall j: nat :: LastChoice(states, ds, j, i) && ds[j].SetNumber? ==> g == ds[j].n)
    && (forall j: nat :: LastChoice(states, ds, j, i) && ds[j].SetSymbol? ==> g >= 0 && NextFree(states, ds, j, g))
  }

  ghost predicate Begun(states: seq<Lists>, ds: seq<Directive>) {
    Run(states, ds) && |states| == |ds| + 1 && states[0] == NewLists()
  }

  lemma Idles(states: seq<Lists>, ds: seq<Directive>, j: nat)
    requires Run(states, ds) && j < |ds| && !Chooses(states, ds, j)
    ensures states[j + 1].current == states[j].current
  {
    hide GoodLists, KeepsAll, NumberedAt, SymbolicAt, NameUsed, Selected;
    assert StepSpec(states[j], ds[j], states[j + 1]);
  }

  /** Between choices the current set stays. */
  lemma {:induction false} Stays(states: seq<Lists>, ds: seq<Directive>, j: nat, i: nat)
    requires Run(states, ds) && j <= i <= |ds|
    requires forall k: nat :: j <= k < i ==> !Chooses(states, ds, k)
    ensures states[i].current == states[j].current
    decreases i - j
  {
    hide GoodLists, KeepsAll, StepSpec, Chooses;
    if j < i {
      Stays(states, ds, j, i - 1);
      Idles(states, ds, i - 1);
    }
  }

  /** last_set is the highest number given or assigned so far. */
  ghost predicate Highest(states: seq<Lists>, ds: seq<Directive>, j: nat)
    requires j <= |ds| < |states|
  {
    && (forall k: nat, h: nat :: k < j && Gives(states, ds, k, h) ==> h <= states[j].lastSet)
    && (states[j].lastSet == 0 || exists k: nat :: k < j && Gives(states, ds, k, states[j].lastSet))
  }

  lemma Rises(states: seq<Lists>, ds: seq<Directive>, j: nat)
    requires Run(states, ds) && j < |ds|
    ensures states[j].lastSet <= states[j + 1].lastSet
    ensures states[j].lastSet < states[j + 1].lastSet ==> Gives(states, ds, j, states[j + 1].lastSet)
    ensures forall h: nat :: Gives(states, ds, j, h) ==> h <= states[j + 1].lastSet
  {
    hide GoodLists, KeepsAll, NumberedAt, SymbolicAt, NameUsed, Selected;
    assert StepSpec(states[j], ds[j], states[j + 1]);
  }

  lemma {:induction false} HighestAlways(states: seq<Lists>, ds: seq<Directive>, j: nat)
    requires Begun(states, ds) && j <= |ds|
    ensures Highest(states, ds, j)
  {
    hide GoodLists, KeepsAll, StepSpec, Gives;
    if j > 0 {
      HighestAlways(states, ds, j - 1);
      Rises(states, ds, j - 1);
      forall k: nat, h: nat | k < j && Gives(states, ds, k, h)
        ensures h <= states[j].lastSet
      {}
    }
  }

  /** The set that is current before any line is the one its "$set" line names. */
  lemma CurrentSet(states: seq<Lists>, ds: seq<Directive>, i: nat)
    requires Begun(states, ds) && i <= |ds|
    ensures BelongsTo(states, ds, i, states[i].current - 1)
  {
    hide GoodLists, KeepsAll, Chooses, Run, NextFree, StepSpec;
    if forall j: nat :: j < i ==> !Chooses(states, ds, j) {
      Stays(states, ds, 0, i);
    }
    forall j: nat | LastChoice(states, ds, j, i)
      ensures ds[j].SetNumber? ==> states[i].current - 1 == ds[j].n
      ensures ds[j].SetSymbol? ==> states[i].current > 0 && NextFree(states, ds, j, states[i].current - 1)
    {
      Stays(states, ds, j + 1, i);
      Chosen(states, ds, j);
    }
  }

  lemma Chosen(states: seq<Lists>, ds: seq<Directive>, j: nat)
    requires Begun(states, ds) && j < |ds| && Chooses(states, ds, j)
    ensures ds[j].SetNumber? ==> states[j + 1].current == ds[j].n + 1
    ensures ds[j].SetSymbol? ==> states[j + 1].current > 0 && NextFree(states, ds, j, states[j + 1].current - 1)
  {
    hide GoodLists, KeepsAll, NumberedAt, SymbolicAt, NameUsed, Selected, Gives;
    assert StepSpec(states[j], ds[j], states[j + 1]);
    HighestAlways(states, ds, j);
  }

  /** No other set fits. */
  lemma OneSet(states: seq<Lists>, ds: seq<Directive>, i: nat, g: int, h: int)
    requires i <= |ds| < |states| && BelongsTo(states, ds, i, g) && BelongsTo(states, ds, i, h)
    ensures g == h
  {
    hide Chooses, Gives;
    if j: nat :| j < i && Chooses(states, ds, j) {
      var l := FindLast(states, ds, j, i);
      if ds[l].SetSymbol? {
        assert NextFree(states, ds, l, g) && NextFree(states, ds, l, h);
      } else {
        ChoiceIsSet(states, ds, l);
      }
    }
  }

  lemma ChoiceIsSet(states: seq<Lists>, ds: seq<Directive>, j: nat)
    requires j < |ds| < |states| && Chooses(states, ds, j)
    ensures ds[j].SetNumber? || ds[j].SetSymbol?
  {}

  lemma FindLast(states: seq<Lists>, ds: seq<Directive>, j: nat, i: nat) returns (l: nat)
    requires j < i <= |ds| < |states| && Chooses(states, ds, j)
    ensures LastChoice(states, ds, l, i)
    decreases i - j
  {
    hide Chooses;
    if k: nat :| j < k < i && Chooses(states, ds, k) {
      l := FindLast(states, ds, k, i);
    } else {
      l := j;
    }
  }

  /** So the current set is g exactly if the lines say g. */
  lemma CurrentExactly(states: seq<Lists>, ds: seq<Directive>, i: nat, g: int)
    requires Begun(states, ds) && i <= |ds|
    ensures states[i].current == g + 1 <==> BelongsTo(states, ds, i, g)
  {
    hide Run, BelongsTo, NewLists;
    CurrentSet(states, ds, i);
    if BelongsTo(states, ds, i, g) {
      OneSet(states, ds, i, g, states[i].current - 1);
    }
  }

  // ----- the names of sets

  ghost predicate Named(sets: seq<MessageSet>, number: nat, name: string) {
    exists i :: 0 <= i < |sets| && sets[i].number == number && sets[i].symbol == Some(name)
  }

  /** Line k gives the name to a set, and no line before j chooses that set by its number again. */
  ghost predicate Names(states: seq<Lists>, ds: seq<Directive>, k: nat, j: nat, number: nat, name: string)
    requires j <= |ds| < |states|
  {
    && k < j && ds[k] == SetSymbol(name) && Chooses(states, ds, k) && states[k + 1].current == number
    && forall l: nat :: k < l < j && ds[l].SetNumber? && ds[l].n != 0 ==> ds[l].n + 1 != number
  }

  lemma RenamedNames(r: seq<MessageSet>, k: nat, symbol: Option<string>, number: nat, name: string)
    requires GoodSets(r) && k < |r|
    ensures var b := r[k := r[k].(symbol := symbol)];
            Named(b, number, name) <==> if number == r[k].number then symbol == Some(name) else Named(r, number, name)
  {
    hide GoodSet;
    var b := r[k := r[k].(symbol := symbol)];
    assert b[k].number == r[k].number && b[k].symbol == symbol;
    if number != r[k].number {
      if i :| 0 <= i < |r| && r[i].number == number && r[i].symbol == Some(name) {
        assert b[i] == r[i];
      }
    }
  }

  lemma PrependedNames(a: seq<MessageSet>, s: MessageSet, number: nat, name: string)
    requires s.symbol.None?
    ensures Named([s] + a, number, name) <==> Named(a, number, name)
  {
    var r := [s] + a;
    if i :| 0 <= i < |a| && a[i].number == number && a[i].symbol == Some(name) {
      assert r[i + 1] == a[i];
    }
  }

  lemma SelectedNames(a: seq<MessageSet>, n: nat, symbol: Option<string>, b: seq<MessageSet>, number: nat, name: string)
    requires GoodSets(a) && Selected(a, n, symbol, b)
    ensures Named(b, number, name) <==> if number == n + 1 then symbol == Some(name) else Named(a, number, name)
  {
    hide Named;
    var s := MessageSet(n + 1, [], 0, None);
    var r := if HasSet(a, n + 1) then a else [s] + a;
    var k :| 0 <= k < |r| && r[k].number == n + 1 && b == r[k := r[k].(symbol := symbol)];
    assert GoodSets(r);
    hide GoodSets, HasSet;
    PrependedNames(a, s, number, name);
    RenamedNames(r, k, symbol, number, name);
  }

  lemma OnlyAtNames(a: seq<MessageSet>, k: nat, b: seq<MessageSet>, number: nat, name: string)
    requires OnlyAt(a, k, b)
    ensures Named(b, number, name) <==> Named(a, number, name)
  {
    assert forall i :: 0 <= i < |a| ==> a[i].number == b[i].number && a[i].symbol == b[i].symbol;
    if i :| 0 <= i < |a| && a[i].number == number && a[i].symbol == Some(name) {
      assert b[i].number == number;
    }
  }

  /** What a line does to the names. */
  lemma LineNames(s: Lists, d: Directive, t: Lists, number: nat, name: string)
    requires GoodLists(s) && StepSpec(s, d, t)
    ensures d.SetNumber? ==>
              (Named(t.sets, number, name) <==> Named(s.sets, number, name) && (d.n == 0 || number != d.n + 1))
    ensures d.SetSymbol? && NameUsed(s.sets, d.name) ==> (Named(t.sets, number, name) <==> Named(s.sets, number, name))
    ensures d.SetSymbol? && !NameUsed(s.sets, d.name) ==>
              (Named(t.sets, number, name) <==>
               if number == t.current then d.name == name else Named(s.sets, number, name))
    ensures !d.SetNumber? && !d.SetSymbol? ==> (Named(t.sets, number, name) <==> Named(s.sets, number, name))
  {
    hide GoodSets, NumberedSpec, SymbolicSpec, HasSet, Selected, NameUsed, Named;
    match d
    case SetNumber(n) =>
      if n != 0 {
        SelectedNames(s.sets, n, None, t.sets, number, name);
      }
    case SetSymbol(nm) =>
      if !NameUsed(s.sets, nm) {
        SelectedNames(s.sets, t.lastSet, Some(nm), t.sets, number, name);
      }
    case NumberedMessage(n, text) =>
      var k: nat :| OnlyAt(s.sets, k, t.sets) && s.sets[k].number == s.current &&
          NumberedSpec(s.sets[k], n, text, t.sets[k]);
      OnlyAtNames(s.sets, k, t.sets, number, name);
    case SymbolicMessage(ident, text) =>
      var k: nat :| OnlyAt(s.sets, k, t.sets) && s.sets[k].number == s.current &&
          SymbolicSpec(s.sets[k], ident, text, t.sets[k]);
      OnlyAtNames(s.sets, k, t.sets, number, name);
  }

  ghost predicate NamedBy(states: seq<Lists>, ds: seq<Directive>, j: nat, number: nat, name: string)
    requires j <= |ds| < |states|
  {
    exists k: nat :: Names(states, ds, k, j, number, name)
  }

  /** A set has the name that the last line to choose it gave, if it gave one. */
  lemma {:induction false} NamesExactly(states: seq<Lists>, ds: seq<Directive>, j: nat, number: nat, name: string)
    requires Begun(states, ds) && j <= |ds|
    ensures Named(states[j].sets, number, name) <==> NamedBy(states, ds, j, number, name)
  {
    hide GoodLists, KeepsAll, StepSpec, NameUsed;
    if j > 0 {
      var i := j - 1;
      NamesExactly(states, ds, i, number, name);
      LineNames(states[i], ds[i], states[j], number, name);
      NamesStep(states, ds, i, number, name);
    }
  }

  lemma NamesStep(states: seq<Lists>, ds: seq<Directive>, i: nat, number: nat, name: string)
    requires Begun(states, ds) && i < |ds|
    ensures ds[i].SetNumber? ==>
              (NamedBy(states, ds, i + 1, number, name) <==>
               NamedBy(states, ds, i, number, name) && (ds[i].n == 0 || number != ds[i].n + 1))
    ensures !ds[i].SetNumber? && !Chooses(states, ds, i) ==>
              (NamedBy(states, ds, i + 1, number, name) <==> NamedBy(states, ds, i, number, name))
    ensures ds[i].SetSymbol? && Chooses(states, ds, i) ==>
              (NamedBy(states, ds, i + 1, number, name) <==>
               if number == states[i + 1].current then ds[i].name == name else NamedBy(states, ds, i, number, name))
  {
    hide GoodLists, KeepsAll, StepSpec, Run, NewLists;
    var j := i + 1;
    if k: nat :| Names(states, ds, k, i, number, name) {
      assert !ds[i].SetNumber? || ds[i].n == 0 || number != ds[i].n + 1 ==> Names(states, ds, k, j, number, name);
    }
    if k: nat :| Names(states, ds, k, j, number, name) {
      assert k < i ==> Names(states, ds, k, i, number, name);
    }
    if ds[i].SetSymbol? && Chooses(states, ds, i) {
      if ds[i].name == name && number == states[i + 1].current {
        assert Names(states, ds, i, j, number, name);
      }
      Chosen(states, ds, i);
      forall k: nat | k < i && ds[k].SetSymbol? && Chooses(states, ds, k)
        ensures states[k + 1].current != states[i + 1].current
      {
        Chosen(states, ds, k);
        assert Gives(states, ds, k, states[k + 1].current - 1);
      }
    }
  }

  /** A name is refused exactly if a set has it. */
  lemma NameUsedExactly(states: seq<Lists>, ds: seq<Directive>, j: nat, name: string)
    requires Begun(states, ds) && j <= |ds|
    ensures NameUsed(states[j].sets, name) <==> exists number: nat :: NamedBy(states, ds, j, number, name)
  {
    hide Run, NamedBy, NewLists;
    if i :| 0 <= i < |states[j].sets| && states[j].sets[i].symbol == Some(name) {
      NamesExactly(states, ds, j, states[j].sets[i].number, name);
      assert Named(states[j].sets, states[j].sets[i].number, name);
    }
    if number: nat :| NamedBy(states, ds, j, number, name) {
      NamesExactly(states, ds, j, number, name);
    }
  }

  // ----- which lines are accepted

  /** Lines k and i are accepted messages of one set with the same number, or with the same name. */
  ghost predicate Repeats(states: seq<Lists>, ds: seq<Directive>, k: nat, i: nat)
    requires k < |ds| < |states| && i < |ds|
  {
    && Accepted(states[k], ds[k]) && states[k].current == states[i].current
    && match ds[i]
       case SetNumber(_) => false
       case SetSymbol(_) => false
       case NumberedMessage(n, _) => ds[k].NumberedMessage? && ds[k].n == n
       case SymbolicMessage(ident, _) => ds[k].SymbolicMessage? && ds[k].ident == ident
  }

  /** A message is accepted exactly if it has a number, not zero, or a name that none accepted for its set has. */
  lemma AcceptedExactly(states: seq<Lists>, ds: seq<Directive>, i: nat)
    requires Begun(states, ds) && i < |ds|
    ensures Accepted(states[i], ds[i]) <==>
              && (ds[i].SymbolicMessage? || (ds[i].NumberedMessage? && ds[i].n != 0))
              && forall k: nat :: k < i ==> !Repeats(states, ds, k, i)
  {
    hide Holds, Run, NewLists, Blank;
    StartIsBlank();
    if k: nat :| k < i && Repeats(states, ds, k, i) {
      AcceptedStays(states, ds, k, i);
      var m :| Holds(states[i].sets, states[k].current, m) && IsOf(m, ds[k]);
    }
    if ds[i].NumberedMessage? && ds[i].n != 0 && !Accepted(states[i], ds[i]) {
      var m :| Holds(states[i].sets, states[i].current, m) && m.number == ds[i].n && !m.symbol.Some?;
      var k := OnlyAccepted(states, ds, i, states[i].current, m);
      assert Repeats(states, ds, k, i);
    }
    if ds[i].SymbolicMessage? && !Accepted(states[i], ds[i]) {
      var m :| Holds(states[i].sets, states[i].current, m) && m.symbol == Some(ds[i].ident);
      var k := OnlyAccepted(states, ds, i, states[i].current, m);
      assert Repeats(states, ds, k, i);
    }
  }

  // ----- the numbers of named messages

  /** One more than the highest number in the current set. */
  ghost predicate NextNumber(s: Lists, v: nat) {
    && v > 0 && (forall m :: Holds(s.sets, s.current, m) ==> m.number < v)
    && (v == 1 || exists m :: Holds(s.sets, s.current, m) && v == m.number + 1)
  }

  /** last_message is a number in the set. */
  ghost predicate Topped(s: MessageSet) {
    s.last == 0 || exists m :: m in Contents(s.messages) && m.number == s.last
  }

  ghost predicate AllTopped(sets: seq<MessageSet>) {
    forall k :: 0 <= k < |sets| ==> Topped(sets[k])
  }

  lemma NumberedTopped(s: MessageSet, n: nat, text: Text, r: MessageSet)
    requires GoodSet(s) && Topped(s) && NumberedSpec(s, n, text, r)
    ensures Topped(r)
  {
    if n != 0 {
      if m :| Clash(s.messages, n, m) {
        if m.symbol.Some? {
          assert m.(number := s.last + 1) in Contents(r.messages);
        }
      } else if n > s.last {
        assert Message(n, text, None) in Contents(r.messages);
      } else {
        var m :| m in Contents(s.messages) && m.number == s.last;
        assert m in Contents(r.messages);
      }
    }
  }

  lemma SymbolicTopped(s: MessageSet, ident: string, text: Text, r: MessageSet)
    requires Topped(s) && SymbolicSpec(s, ident, text, r)
    ensures Topped(r)
  {
    if !exists m :: m in s.messages && m.symbol == Some(ident) {
      assert Message(s.last + 1, text, Some(ident)) in Contents(r.messages);
    }
  }

  lemma SelectedTopped(a: seq<MessageSet>, n: nat, symbol: Option<string>, b: seq<MessageSet>)
    requires AllTopped(a) && Selected(a, n, symbol, b)
    ensures AllTopped(b)
  {
    hide HasSet;
    var s := MessageSet(n + 1, [], 0, None);
    var r := if HasSet(a, n + 1) then a else [s] + a;
    assert AllTopped(r);
    var k :| 0 <= k < |r| && r[k].number == n + 1 && b == r[k := r[k].(symbol := symbol)];
    assert Topped(b[k]) by {
      assert Topped(r[k]) && b[k].messages == r[k].messages && b[k].last == r[k].last;
    }
    hide Topped;
    forall i | 0 <= i < |b|
      ensures Topped(b[i])
    {
      assert i != k ==> b[i] == r[i];
    }
  }

  lemma LineTopped(s: Lists, d: Directive, t: Lists)
    requires GoodLists(s) && StepSpec(s, d, t) && AllTopped(s.sets)
    ensures AllTopped(t.sets)
  {
    hide GoodSet, NumberedSpec, SymbolicSpec, HasSet, Selected, NameUsed, Topped;
    match d
    case SetNumber(n) =>
      if n != 0 {
        SelectedTopped(s.sets, n, None, t.sets);
      }
    case SetSymbol(name) =>
      if !NameUsed(s.sets, name) {
        SelectedTopped(s.sets, t.lastSet, Some(name), t.sets);
      }
    case NumberedMessage(n, text) =>
      var k: nat :| OnlyAt(s.sets, k, t.sets) && s.sets[k].number == s.current &&
          NumberedSpec(s.sets[k], n, text, t.sets[k]);
      NumberedTopped(s.sets[k], n, text, t.sets[k]);
    case SymbolicMessage(ident, text) =>
      var k: nat :| OnlyAt(s.sets, k, t.sets) && s.sets[k].number == s.current &&
          SymbolicSpec(s.sets[k], ident, text, t.sets[k]);
      SymbolicTopped(s.sets[k], ident, text, t.sets[k]);
  }

  lemma {:induction false} AlwaysTopped(states: seq<Lists>, ds: seq<Directive>, i: nat)
    requires Begun(states, ds) && i <= |ds|
    ensures AllTopped(states[i].sets)
  {
    hide GoodLists, StepSpec, KeepsAll, AllTopped;
    if i == 0 {
      NewIsTopped();
    } else {
      AlwaysTopped(states, ds, i - 1);
      LineTopped(states[i - 1], ds[i - 1], states[i]);
    }
  }

  lemma NewIsTopped()
    ensures AllTopped(NewLists().sets)
  {}

  lemma LastIsNext(s: Lists, k: nat)
    requires GoodLists(s) && AllTopped(s.sets) && k < |s.sets| && s.sets[k].number == s.current
    ensures NextNumber(s, s.sets[k].last + 1)
  {
    hide Holds;
    forall m | Holds(s.sets, s.current, m)
      ensures m.number <= s.sets[k].last
    {
      HoldsAt(s.sets, k, m);
    }
    if s.sets[k].last > 0 {
      assert Topped(s.sets[k]);
      var m :| m in Contents(s.sets[k].messages) && m.number == s.sets[k].last;
      HoldsAt(s.sets, k, m);
    }
  }

  lemma StepAt(states: seq<Lists>, ds: seq<Directive>, i: nat)
    requires Begun(states, ds) && i < |ds|
    ensures GoodLists(states[i]) && GoodLists(states[i + 1]) && StepSpec(states[i], ds[i], states[i + 1])
  {
    hide GoodLists, StepSpec;
  }

  lemma HoldsAll(sets: seq<MessageSet>, k: nat)
    requires GoodSets(sets) && k < |sets|
    ensures forall m :: Holds(sets, sets[k].number, m) <==> m in Contents(sets[k].messages)
  {
    hide GoodSets, Holds;
    forall m
      ensures Holds(sets, sets[k].number, m) <==> m in Contents(sets[k].messages)
    {
      HoldsAt(sets, k, m);
    }
  }

  /** The set has x besides what it had. */
  ghost predicate Gains(s: Lists, t: Lists, x: Message) {
    forall o :: Holds(t.sets, s.current, o) <==> Holds(s.sets, s.current, o) || o == x
  }

  /** The set has x besides what it had, m having been moved to v. */
  ghost predicate Displaced(s: Lists, t: Lists, m: Message, v: nat, x: Message) {
    forall o :: Holds(t.sets, s.current, o) <==>
                  (Holds(s.sets, s.current, o) && o != m) || o == m.(number := v) || o == x
  }

  lemma NamedStep(s: Lists, ident: string, text: Text, t: Lists, k: nat)
    requires GoodLists(s) && GoodLists(t) && Accepted(s, SymbolicMessage(ident, text))
    requires OnlyAt(s.sets, k, t.sets) && s.sets[k].number == s.current
    requires SymbolicSpec(s.sets[k], ident, text, t.sets[k])
    ensures Gains(s, t, Message(s.sets[k].last + 1, text, Some(ident)))
  {
    hide GoodSets, HasSet, Holds;
    HoldsAll(s.sets, k);
    HoldsAll(t.sets, k);
    assert forall m :: m in s.sets[k].messages ==> Holds(s.sets, s.current, m);
  }

  /** An accepted named message gets the number after the highest of its set, and no other message changes. */
  lemma NamedNumber(states: seq<Lists>, ds: seq<Directive>, i: nat) returns (v: nat)
    requires Begun(states, ds) && i < |ds| && ds[i].SymbolicMessage? && Accepted(states[i], ds[i])
    ensures NextNumber(states[i], v) && Gains(states[i], states[i + 1], Message(v, ds[i].text, Some(ds[i].ident)))
  {
    hide Run, NewLists, GoodLists, Accepted, NextNumber, Gains, AllTopped, SymbolicSpec;
    StepAt(states, ds, i);
    AlwaysTopped(states, ds, i);
    var s, t := states[i], states[i + 1];
    var k: nat :| OnlyAt(s.sets, k, t.sets) && s.sets[k].number == s.current &&
        SymbolicSpec(s.sets[k], ds[i].ident, ds[i].text, t.sets[k]);
    LastIsNext(s, k);
    NamedStep(s, ds[i].ident, ds[i].text, t, k);
    v := s.sets[k].last + 1;
  }

  lemma DisplacedStep(s: Lists, n: nat, text: Text, t: Lists, k: nat, m: Message)
    requires GoodLists(s) && GoodLists(t) && Accepted(s, NumberedMessage(n, text))
    requires OnlyAt(s.sets, k, t.sets) && s.sets[k].number == s.current && NumberedSpec(s.sets[k], n, text, t.sets[k])
    requires Holds(s.sets, s.current, m) && m.number == n
    ensures Displaced(s, t, m, s.sets[k].last + 1, Message(n, text, None))
  {
    hide GoodSets, HasSet, Holds;
    HoldsAll(s.sets, k);
    HoldsAll(t.sets, k);
    assert Clash(s.sets[k].messages, n, m);
  }

  /**
   An accepted numbered message that finds its number taken, by a named message then, moves that
   one behind the highest of the set; no other changes.
   */
  lemma DisplacedNumber(states: seq<Lists>, ds: seq<Directive>, i: nat, m: Message) returns (v: nat)
    requires Begun(states, ds) && i < |ds| && ds[i].NumberedMessage? && Accepted(states[i], ds[i])
    requires Holds(states[i].sets, states[i].current, m) && m.number == ds[i].n
    ensures NextNumber(states[i], v)
    ensures Displaced(states[i], states[i + 1], m, v, Message(ds[i].n, ds[i].text, None))
  {
    hide Run, NewLists, GoodLists, Accepted, NextNumber, Displaced, AllTopped, NumberedSpec, Holds;
    StepAt(states, ds, i);
    AlwaysTopped(states, ds, i);
    var s, t := states[i], states[i + 1];
    var k: nat :| OnlyAt(s.sets, k, t.sets) && s.sets[k].number == s.current &&
        NumberedSpec(s.sets[k], ds[i].n, ds[i].text, t.sets[k]);
    LastIsNext(s, k);
    DisplacedStep(s, ds[i].n, ds[i].text, t, k, m);
    v := s.sets[k].last + 1;
  }

  lemma FreeStep(s: Lists, n: nat, text: Text, t: Lists, k: nat)
    requires GoodLists(s) && GoodLists(t) && n > 0 && forall m :: Holds(s.sets, s.current, m) ==> m.number != n
    requires OnlyAt(s.sets, k, t.sets) && s.sets[k].number == s.current && NumberedSpec(s.sets[k], n, text, t.sets[k])
    ensures Gains(s, t, Message(n, text, None))
  {
    hide GoodSets, HasSet, Holds;
    HoldsAll(s.sets, k);
    HoldsAll(t.sets, k);
    assert forall m :: m in s.sets[k].messages ==> Holds(s.sets, s.current, m);
  }

  /** One that finds its number free is added, and no other message changes. */
  lemma FreeNumber(states: seq<Lists>, ds: seq<Directive>, i: nat)
    requires Begun(states, ds) && i < |ds| && ds[i].NumberedMessage? && ds[i].n > 0
    requires forall m :: Holds(states[i].sets, states[i].current, m) ==> m.number != ds[i].n
    ensures Gains(states[i], states[i + 1], Message(ds[i].n, ds[i].text, None))
  {
    hide Run, NewLists, GoodLists, Gains, NumberedSpec, Holds;
    StepAt(states, ds, i);
    var s, t := states[i], states[i + 1];
    var k: nat :| OnlyAt(s.sets, k, t.sets) && s.sets[k].number == s.current &&
        NumberedSpec(s.sets[k], ds[i].n, ds[i].text, t.sets[k]);
    FreeStep(s, ds[i].n, ds[i].text, t, k);
  }

  // ----- the number of messages

  function CountMessages(ds: seq<Directive>): (n: nat)
    ensures n <= |ds|
  {
    if ds == [] then 0
    else var d := ds[|ds| - 1]; CountMessages(ds[..|ds| - 1]) + if d.SetNumber? || d.SetSymbol? then 0 else 1
  }

  /** total_messages counts every message line, accepted or not. */
  lemma {:induction false} TotalCounts(states: seq<Lists>, ds: seq<Directive>, i: nat)
    requires Begun(states, ds) && i <= |ds|
    ensures states[i].total == CountMessages(ds[..i])
  {
    hide GoodLists, KeepsAll, NumberedAt, SymbolicAt, NameUsed, Selected;
    if i > 0 {
      TotalCounts(states, ds, i - 1);
      assert StepSpec(states[i - 1], ds[i - 1], states[i]);
      assert ds[..i][..i - 1] == ds[..i - 1];
    }
  }
}
