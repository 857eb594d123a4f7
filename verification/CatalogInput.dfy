/**
 How gencat collects messages (glibc-2.27/catgets/gencat.c, read_input_file and find_set): sets in a
 list, each with a sorted list of messages whose numbers are given or assigned.
 */
module CatalogInput {
  import opened Optional

  type Byte = b: int | 0 <= b < 256
  type Text = t: seq<Byte> | 0 !in t      // a message, without its terminating NUL

  datatype Message = Message(number: nat, text: Text, symbol: Option<string>)

  datatype MessageSet = MessageSet(number: nat, messages: seq<Message>, last: nat, symbol: Option<string>)

  // ----- one set

  ghost predicate Ascending(ms: seq<Message>) {
    forall i, j :: 0 <= i < j < |ms| ==> ms[i].number < ms[j].number
  }

  ghost function Contents(ms: seq<Message>): set<Message> {
    set m | m in ms
  }

  ghost predicate DistinctSymbols(ms: seq<Message>) {
    forall i, j :: 0 <= i < j < |ms| && ms[i].symbol.Some? ==> ms[i].symbol != ms[j].symbol
  }

  /** Strictly ascending from 1, nothing above `last`, no symbol used twice. */
  ghost predicate GoodSet(s: MessageSet) {
    && Ascending(s.messages)
    && (forall i :: 0 <= i < |s.messages| ==> 1 <= s.messages[i].number <= s.last)
    && DistinctSymbols(s.messages)
  }

  function Spliced(ms: seq<Message>, k: nat, m: Message): (r: seq<Message>)
    requires k <= |ms|
    ensures |r| == |ms| + 1
    ensures forall i :: 0 <= i < |r| ==> r[i] == if i < k then ms[i] else if i == k then m else ms[i - 1]
  {
    ms[..k] + [m] + ms[k..]
  }

  lemma SplicedAscending(ms: seq<Message>, k: nat, m: Message)
    requires Ascending(ms) && k <= |ms|
    requires (k > 0 ==> ms[k - 1].number < m.number) && (k < |ms| ==> m.number < ms[k].number)
    ensures Ascending(Spliced(ms, k, m))
  {
    var r := Spliced(ms, k, m);
    forall i, j | 0 <= i < j < |r|
      ensures r[i].number < r[j].number
    {
      assert i == k && k < |ms| ==> ms[k].number <= ms[j - 1].number;
      assert j == k ==> ms[i].number <= ms[k - 1].number;
    }
  }

  lemma SplicedContents(ms: seq<Message>, k: nat, m: Message)
    requires k <= |ms|
    ensures Contents(Spliced(ms, k, m)) == Contents(ms) + {m}
  {
    assert ms == ms[..k] + ms[k..];
  }

  /** The sorted insertion at the end of a message definition. */
  method Insert(ms: seq<Message>, m: Message) returns (r: seq<Message>, ghost k: nat)
    requires Ascending(ms) && forall i :: 0 <= i < |ms| ==> ms[i].number != m.number
    ensures k <= |ms| && r == Spliced(ms, k, m)
    ensures Ascending(r) && Contents(r) == Contents(ms) + {m}
  {
    if ms == [] || ms[0].number > m.number {
      k, r := 0, [m] + ms;
      assert ms[..0] + [m] + ms[0..] == r;
    } else {
      var run := 0;
      while run + 1 < |ms| && ms[run + 1].number <= m.number
        invariant run < |ms| && ms[run].number < m.number
      {
        run := run + 1;
      }
      k, r := run + 1, ms[..run + 1] + [m] + ms[run + 1..];
    }
    SplicedAscending(ms, k, m);
    SplicedContents(ms, k, m);
  }

  /** The message that a numbered definition displaces, if any. */
  ghost predicate Clash(ms: seq<Message>, n: nat, m: Message) {
    m in ms && m.number == n
  }

  /** No message of a is lost in b: numbers given by the user stay, automatic ones may change. */
  ghost predicate Keeps(a: MessageSet, b: MessageSet) {
    a.number == b.number && forall m :: m in a.messages ==> Kept(m, b)
  }

  ghost predicate Kept(m: Message, b: MessageSet) {
    if m.symbol.None? then m in Contents(b.messages) else exists n :: m.(number := n) in Contents(b.messages)
  }

  lemma KeepsTrans(a: MessageSet, b: MessageSet, c: MessageSet)
    requires Keeps(a, b) && Keeps(b, c)
    ensures Keeps(a, c)
  {
    forall m | m in a.messages
      ensures Kept(m, c)
    {
      assert Kept(m, b);
      if m.symbol.None? {
        assert Kept(m, c);
      } else {
        var n :| m.(number := n) in Contents(b.messages);
        assert Kept(m.(number := n), c);
        var k :| m.(number := n).(number := k) in Contents(c.messages);
        assert m.(number := n).(number := k) == m.(number := k);
      }
    }
  }

  /** What a numbered definition does: nothing for number 0 or a number the user gave before; otherwise the message is
      added, and a message that held the number by automatic assignment moves to the next unused number. */
  ghost predicate NumberedSpec(s: MessageSet, n: nat, text: Text, r: MessageSet) {
    && (n == 0 ==> r == s)
    && (n > 0 && (forall m :: !Clash(s.messages, n, m)) ==>
          Contents(r.messages) == Contents(s.messages) + {Message(n, text, None)} &&
              r.last == (if n > s.last then n else s.last))
    && (forall m :: Clash(s.messages, n, m) && m.symbol.None? ==> r == s)
    && (forall m :: Clash(s.messages, n, m) && m.symbol.Some? ==>
          Contents(r.messages) == Contents(s.messages) - {m} + {m.(number := s.last + 1), Message(n, text, None)} &&
              r.last == s.last + 1)
  }

  /**
   What a symbolic definition does: nothing if the name is taken, otherwise the message gets the
   next unused number.
   */
  ghost predicate SymbolicSpec(s: MessageSet, ident: string, text: Text, r: MessageSet) {
    if exists m :: m in s.messages && m.symbol == Some(ident) then r == s
    else Contents(r.messages) == Contents(s.messages) + {Message(s.last + 1, text, Some(ident))} && r.last == s.last + 1
  }

  /** A message whose number the user gives.  A clash with an automatic number moves the older message to the end. */
  method DefineNumbered(s: MessageSet, n: nat, text: Text) returns (r: MessageSet)
    requires GoodSet(s)
    ensures GoodSet(r) && r.number == s.number && r.symbol == s.symbol
    ensures NumberedSpec(s, n, text, r)
    ensures Keeps(s, r)
  {
    var i := 0;
    while i < |s.messages| && s.messages[i].number != n
      invariant 0 <= i <= |s.messages|
      invariant forall k :: 0 <= k < i ==> s.messages[k].number != n
    {
      i := i + 1;
    }
    if i == |s.messages| {
      if n == 0 {
        return s;
      }
      var ms, k := Insert(s.messages, Message(n, text, None));
      r := s.(messages := ms, last := if n > s.last then n else s.last);
      InsertKeepsGood(s, k, Message(n, text, None), r.last);
    } else {
      assert Clash(s.messages, n, s.messages[i]);
      UniqueClash(s.messages, n, i);
      if s.messages[i].symbol.None? {
        return s;
      }
      r := Displace(s, n, text, i);
      DisplaceSpec(s, n, text, i, r);
    }
  }

  /** The clash with an automatic number. */
  method Displace(s: MessageSet, n: nat, text: Text, i: nat) returns (r: MessageSet)
    requires GoodSet(s) && i < |s.messages| && s.messages[i].number == n && s.messages[i].symbol.Some?
    ensures GoodSet(r) && r.number == s.number && r.symbol == s.symbol && r.last == s.last + 1
    ensures Contents(r.messages)
      == Contents(s.messages) - {s.messages[i]} + {s.messages[i].(number := s.last + 1), Message(n, text, None)}
  {
    var last := s.last + 1;
    var moved := s.messages[..i] + s.messages[i + 1..] + [s.messages[i].(number := last)];
    assert moved == Moved(s.messages, i, last);
    MovedGood(s, i);
    MovedContents(s.messages, i, last);
    hide GoodSet;
    GoodAscending(s.(messages := moved, last := last));
    var ms, k := Insert(moved, Message(n, text, None));
    r := s.(messages := ms, last := last);
    InsertKeepsGood(s.(messages := moved, last := last), k, Message(n, text, None), last);
  }

  lemma GoodAscending(s: MessageSet)
    requires GoodSet(s)
    ensures Ascending(s.messages)
  {}

  lemma DisplaceSpec(s: MessageSet, n: nat, text: Text, i: nat, r: MessageSet)
    requires GoodSet(s) && i < |s.messages| && s.messages[i].number == n && s.messages[i].symbol.Some? &&
      r.number == s.number && n >= 1
    requires Contents(r.messages)
      == Contents(s.messages) - {s.messages[i]} + {s.messages[i].(number := s.last + 1), Message(n, text, None)}
    requires r.last == s.last + 1
    ensures NumberedSpec(s, n, text, r) && Keeps(s, r)
  {
    UniqueClash(s.messages, n, i);
    assert Clash(s.messages, n, s.messages[i]);
    forall m | m in s.messages
      ensures Kept(m, r)
    {
      if m == s.messages[i] {
        assert m.(number := s.last + 1) in Contents(r.messages);
      } else {
        assert m.(number := m.number) == m;
      }
    }
  }

  /** A message with a symbolic name gets the next unused number. */
  method DefineSymbolic(s: MessageSet, ident: string, text: Text) returns (r: MessageSet)
    requires GoodSet(s)
    ensures GoodSet(r) && r.number == s.number && r.symbol == s.symbol
    ensures SymbolicSpec(s, ident, text, r)
    ensures Keeps(s, r)
  {
    for i := 0 to |s.messages|
      invariant forall k :: 0 <= k < i ==> s.messages[k].symbol != Some(ident)
    {
      if s.messages[i].symbol == Some(ident) {
        return s;
      }
    }
    var ms, k := Insert(s.messages, Message(s.last + 1, text, Some(ident)));
    r := s.(messages := ms, last := s.last + 1);
    InsertKeepsGood(s, k, Message(s.last + 1, text, Some(ident)), s.last + 1);
  }

  lemma UniqueClash(ms: seq<Message>, n: nat, i: nat)
    requires Ascending(ms) && i < |ms| && ms[i].number == n
    ensures forall m :: Clash(ms, n, m) ==> m == ms[i]
  {
    forall m | Clash(ms, n, m)
      ensures m == ms[i]
    {
      var j :| 0 <= j < |ms| && ms[j] == m;
    }
  }

  lemma InsertKeepsGood(s: MessageSet, k: nat, m: Message, last: nat)
    requires GoodSet(s) && k <= |s.messages| && Ascending(Spliced(s.messages, k, m)) && 1 <= m.number <= last &&
      s.last <= last
    requires m.symbol.Some? ==> forall i :: 0 <= i < |s.messages| ==> s.messages[i].symbol != m.symbol
    ensures GoodSet(s.(messages := Spliced(s.messages, k, m), last := last))
  {
    hide Ascending;
    var r := Spliced(s.messages, k, m);
    forall i, j | 0 <= i < j < |r| && r[i].symbol.Some?
      ensures r[i].symbol != r[j].symbol
    {
      var p, q := if i < k then i else i - 1, if j < k then j else j - 1;
      if i == k {
        assert s.messages[q].symbol != m.symbol;
      } else if j == k {
        assert s.messages[p].symbol != m.symbol || m.symbol.None?;
      } else {
        assert s.messages[p].symbol != s.messages[q].symbol;
      }
    }
  }

  function Moved(ms: seq<Message>, i: nat, number: nat): (r: seq<Message>)
    requires i < |ms|
    ensures |r| == |ms|
  {
    ms[..i] + ms[i + 1..] + [ms[i].(number := number)]
  }

  lemma MovedAt(ms: seq<Message>, i: nat, number: nat, k: nat)
    requires i < |ms| && k < |ms|
    ensures Moved(ms, i, number)[k] == if k < i then ms[k] else if k < |ms| - 1 then ms[k + 1]
      else ms[i].(number := number)
  {}

  lemma MovedPair(s: MessageSet, i: nat, j: nat, k: nat)
    requires GoodSet(s) && i < |s.messages| && j < k < |s.messages|
    ensures var r := Moved(s.messages, i, s.last + 1);
      r[j].number < r[k].number && (r[j].symbol.Some? ==> r[j].symbol != r[k].symbol)
  {
    var ms := s.messages;
    MovedAt(ms, i, s.last + 1, j);
    MovedAt(ms, i, s.last + 1, k);
    hide Moved;
    var p := if j < i then j else j + 1;
    var q := if k < i then k else if k < |ms| - 1 then k + 1 else i;
    assert ms[p].symbol.Some? ==> ms[p].symbol != ms[q].symbol;
  }

  lemma MovedOne(s: MessageSet, i: nat, k: nat)
    requires GoodSet(s) && i < |s.messages| && k < |s.messages|
    ensures var r := Moved(s.messages, i, s.last + 1);
      1 <= r[k].number <= s.last + 1 && r[k].number != s.messages[i].number
  {
    MovedAt(s.messages, i, s.last + 1, k);
    hide Moved;
  }

  lemma MovedGood(s: MessageSet, i: nat)
    requires GoodSet(s) && i < |s.messages|
    ensures GoodSet(s.(messages := Moved(s.messages, i, s.last + 1), last := s.last + 1))
    ensures var r := Moved(s.messages, i, s.last + 1); forall k :: 0 <= k < |r| ==> r[k].number != s.messages[i].number
  {
    hide Moved;
    var r := Moved(s.messages, i, s.last + 1);
    forall j, k | 0 <= j < k < |r|
      ensures r[j].number < r[k].number && (r[j].symbol.Some? ==> r[j].symbol != r[k].symbol)
    {
      MovedPair(s, i, j, k);
    }
    forall k | 0 <= k < |r|
      ensures 1 <= r[k].number <= s.last + 1 && r[k].number != s.messages[i].number
    {
      MovedOne(s, i, k);
    }
  }

  lemma MovedContents(ms: seq<Message>, i: nat, number: nat)
    requires i < |ms| && Ascending(ms)
    ensures Contents(Moved(ms, i, number)) == Contents(ms) - {ms[i]} + {ms[i].(number := number)}
  {
    var m := ms[i];
    assert ms == ms[..i] + [m] + ms[i + 1..];
    assert m !in ms[..i] && m !in ms[i + 1..];
    assert Contents(ms) == Contents(ms[..i]) + {m} + Contents(ms[i + 1..]);
  }

  // ----- the list of sets

  datatype Directive =
    | SetNumber(n: nat)                       // $set 7
    | SetSymbol(name: string)                 // $set name
    | NumberedMessage(n: nat, text: Text)     // 7 text
    | SymbolicMessage(ident: string, text: Text)

  ghost predicate GoodSets(sets: seq<MessageSet>) {
    && (forall i :: 0 <= i < |sets| ==> sets[i].number >= 1 && GoodSet(sets[i]))
    && (forall i, j :: 0 <= i < j < |sets| ==> sets[i].number != sets[j].number)
  }

  ghost predicate HasSet(sets: seq<MessageSet>, number: nat) {
    exists i :: 0 <= i < |sets| && sets[i].number == number
  }

  /** No set and no message of a is lost in b. */
  ghost predicate KeepsAll(a: seq<MessageSet>, b: seq<MessageSet>) {
    forall i :: 0 <= i < |a| ==> KeptSet(a[i], b)
  }

  ghost predicate KeptSet(s: MessageSet, b: seq<MessageSet>) {
    exists j :: 0 <= j < |b| && Keeps(s, b[j])
  }

  lemma KeepsAllTrans(a: seq<MessageSet>, b: seq<MessageSet>, c: seq<MessageSet>)
    requires KeepsAll(a, b) && KeepsAll(b, c)
    ensures KeepsAll(a, c)
  {
    hide Keeps;
    forall i | 0 <= i < |a|
      ensures KeptSet(a[i], c)
    {
      assert KeptSet(a[i], b);
      var j :| 0 <= j < |b| && Keeps(a[i], b[j]);
      assert KeptSet(b[j], c);
      var k :| 0 <= k < |c| && Keeps(b[j], c[k]);
      KeepsTrans(a[i], b[j], c[k]);
    }
  }

  lemma KeepsSelf(s: MessageSet)
    ensures Keeps(s, s)
  {
    forall m | m in s.messages
      ensures Kept(m, s)
    {
      assert m.(number := m.number) == m;
    }
  }

  lemma KeepsAllReplace(a: seq<MessageSet>, k: nat, s: MessageSet)
    requires k < |a| && Keeps(a[k], s)
    ensures KeepsAll(a, a[k := s])
  {
    var b := a[k := s];
    forall i | 0 <= i < |a|
      ensures KeptSet(a[i], b)
    {
      KeepsSelf(a[i]);
      assert Keeps(a[i], b[i]);
    }
  }

  lemma KeepsAllPrepend(a: seq<MessageSet>, s: MessageSet)
    ensures KeepsAll(a, [s] + a) && KeepsAll(a, a)
  {
    forall i | 0 <= i < |a|
      ensures KeptSet(a[i], [s] + a) && KeptSet(a[i], a)
    {
      KeepsSelf(a[i]);
      assert ([s] + a)[i + 1] == a[i];
    }
  }

  /** find_set: the set of a user-visible number, created at the head of the list if it is missing. */
  method FindSet(sets: seq<MessageSet>, number: nat) returns (r: seq<MessageSet>, k: nat)
    ensures k < |r| && r[k].number == number + 1 && (GoodSets(sets) ==> GoodSets(r))
    ensures r == if HasSet(sets, number + 1) then sets else [MessageSet(number + 1, [], 0, None)] + sets
    ensures KeepsAll(sets, r)
  {
    hide KeepsAll;
    KeepsAllPrepend(sets, MessageSet(number + 1, [], 0, None));
    for i := 0 to |sets|
      invariant forall j :: 0 <= j < i ==> sets[j].number != number + 1
    {
      if sets[i].number == number + 1 {
        return sets, i;
      }
    }
    r, k := [MessageSet(number + 1, [], 0, None)] + sets, 0;
  }

  /** The set of a number is selected and named; only that set changes. */
  ghost predicate Selected(a: seq<MessageSet>, number: nat, symbol: Option<string>, b: seq<MessageSet>) {
    var r := if HasSet(a, number + 1) then a else [MessageSet(number + 1, [], 0, None)] + a;
    exists k :: 0 <= k < |r| && r[k].number == number + 1 && b == r[k := r[k].(symbol := symbol)]
  }

  /** Only the set at k changes, and it keeps its number and its name. */
  ghost predicate OnlyAt(a: seq<MessageSet>, k: nat, b: seq<MessageSet>) {
    k < |a| == |b| && b == a[k := b[k]] && b[k].number == a[k].number && b[k].symbol == a[k].symbol
  }

  ghost predicate NumberedAt(a: seq<MessageSet>, current: nat, n: nat, text: Text, b: seq<MessageSet>) {
    exists k: nat :: OnlyAt(a, k, b) && a[k].number == current && NumberedSpec(a[k], n, text, b[k])
  }

  ghost predicate SymbolicAt(a: seq<MessageSet>, current: nat, ident: string, text: Text, b: seq<MessageSet>) {
    exists k: nat :: OnlyAt(a, k, b) && a[k].number == current && SymbolicSpec(a[k], ident, text, b[k])
  }

  const NL_SETD: nat := 1

  /** What has been read so far: the sets, the number of the set that messages go to, last_set and total_messages. */
  datatype Lists = Lists(sets: seq<MessageSet>, current: nat, lastSet: nat, total: nat)

  /** The default set, empty and current. */
  function NewLists(): Lists {
    Lists([MessageSet(NL_SETD + 1, [], 0, None)], NL_SETD + 1, 0, 0)
  }

  ghost predicate GoodLists(s: Lists) {
    GoodSets(s.sets) && HasSet(s.sets, s.current)
  }

  ghost predicate NameUsed(sets: seq<MessageSet>, name: string) {
    exists i :: 0 <= i < |sets| && sets[i].symbol == Some(name)
  }

  /** What one line does. */
  ghost predicate StepSpec(s: Lists, d: Directive, t: Lists) {
    match d
    case SetNumber(n) =>
      && t.lastSet == (if n > s.lastSet then n else s.lastSet) && t.total == s.total
      && (if n == 0 then t.sets == s.sets && t.current == s.current
          else Selected(s.sets, n, None, t.sets) && t.current == n + 1)
    case SetSymbol(name) =>
      if NameUsed(s.sets, name) then t == s
      else t.total == s.total && t.lastSet == s.lastSet + 1 && t.current == t.lastSet + 1
           && Selected(s.sets, t.lastSet, Some(name), t.sets)
    case NumberedMessage(n, text) =>
      t == s.(sets := t.sets, total := s.total + 1) && NumberedAt(s.sets, s.current, n, text, t.sets)
    case SymbolicMessage(ident, text) =>
      t == s.(sets := t.sets, total := s.total + 1) && SymbolicAt(s.sets, s.current, ident, text, t.sets)
  }

  /** The states that lines go through. */
  ghost predicate Run(states: seq<Lists>, ds: seq<Directive>) {
    && |states| == |ds| + 1 && (forall i :: 0 <= i < |states| ==> GoodLists(states[i]))
    && (forall i :: 0 <= i < |ds| ==> StepSpec(states[i], ds[i], states[i + 1]))
    && (forall i :: 0 <= i < |ds| ==> KeepsAll(states[i].sets, states[i + 1].sets))
  }

  class Builder {
    var sets: seq<MessageSet>
    var current: nat               // the number of the set that messages go to
    var total: nat                 // total_messages
    var lastSet: nat

    ghost predicate Valid()
      reads this
    {
      GoodLists(Now())
    }

    ghost function Now(): Lists
      reads this
    {
      Lists(sets, current, lastSet, total)
    }

    constructor ()
      ensures Valid() && Now() == NewLists()
    {
      var r, k := FindSet([], NL_SETD);
      sets, current, total, lastSet := r, NL_SETD + 1, 0, 0;
    }

    method CurrentIndex() returns (k: nat)
      requires Valid()
      ensures k < |sets| && sets[k].number == current
    {
      k := 0;
      while sets[k].number != current
        invariant k < |sets| && forall j :: 0 <= j < k ==> sets[j].number != current
        decreases |sets| - k
      {
        k := k + 1;
      }
    }

    method SelectSet(number: nat, symbol: Option<string>)
      requires Valid()
      modifies this
      ensures Valid() && KeepsAll(old(sets), sets) && current == number + 1 && total == old(total) &&
        lastSet == old(lastSet)
      ensures Selected(old(sets), number, symbol, sets)
    {
      hide KeepsAll, GoodSet, Keeps, Selected;
      var r, k := FindSet(sets, number);
      var s := r[k].(symbol := symbol);
      SymbolKeeps(r[k], s);
      KeepsAllReplace(r, k, s);
      KeepsAllTrans(sets, r, r[k := s]);
      SelectedBy(sets, number, symbol, r, k);
      sets, current := r[k := s], number + 1;
      assert sets[k].number == current;
    }

    /** One line of input. */
    method Step(d: Directive)
      requires Valid()
      modifies this
      ensures Valid() && StepSpec(old(Now()), d, Now()) && KeepsAll(old(sets), sets)
    {
      hide KeepsAll, GoodSet, NumberedSpec, SymbolicSpec;
      KeepsAllPrepend(sets, MessageSet(0, [], 0, None));
      match d
      case SetNumber(n) =>
        if n > lastSet {
          lastSet := n;
        }
        if n != 0 {
          SelectSet(n, None);
        }
      case SetSymbol(name) =>
        var used := SymbolUsed(sets, name);
        if !used {
          lastSet := lastSet + 1;
          SelectSet(lastSet, Some(name));
        }
      case NumberedMessage(n, text) =>
        var k := CurrentIndex();
        var s := DefineNumbered(sets[k], n, text);
        Replace(k, s);
      case SymbolicMessage(ident, text) =>
        var k := CurrentIndex();
        var s := DefineSymbolic(sets[k], ident, text);
        Replace(k, s);
    }

    method Replace(k: nat, s: MessageSet)
      requires Valid() && k < |sets| && sets[k].number == current && s.symbol == sets[k].symbol && Keeps(sets[k], s) &&
        GoodSet(s)
      modifies this
      ensures Valid() && KeepsAll(old(sets), sets) && total == old(total) + 1
      ensures sets == old(sets)[k := s] && OnlyAt(old(sets), k, sets) && current == old(current) &&
        lastSet == old(lastSet)
    {
      hide KeepsAll, GoodSet;
      KeepsAllReplace(sets, k, s);
      sets := sets[k := s];
      total := total + 1;
      assert sets[k].number == current;
    }

    /** Any input, line by line. */
    method ReadInput(ds: seq<Directive>) returns (ghost states: seq<Lists>)
      requires Valid()
      modifies this
      ensures Valid() && Run(states, ds) && states[0] == old(Now()) && states[|ds|] == Now()
    {
      hide KeepsAll, StepSpec, GoodSets, HasSet;
      states := [Now()];
      for i := 0 to |ds|
        invariant Valid() && Run(states, ds[..i]) && states[0] == old(Now()) && states[i] == Now()
      {
        Step(ds[i]);
        assert ds[..i + 1][..i] == ds[..i];
        states := states + [Now()];
      }
      assert ds[..|ds|] == ds;
    }
  }

  lemma SelectedBy(a: seq<MessageSet>, number: nat, symbol: Option<string>, r: seq<MessageSet>, k: nat)
    requires r == if HasSet(a, number + 1) then a else [MessageSet(number + 1, [], 0, None)] + a
    requires k < |r| && r[k].number == number + 1
    ensures Selected(a, number, symbol, r[k := r[k].(symbol := symbol)])
  {}

  lemma SymbolKeeps(s: MessageSet, t: MessageSet)
    requires t == s.(symbol := t.symbol)
    ensures Keeps(s, t) && (GoodSet(s) ==> GoodSet(t))
  {
    forall m | m in s.messages
      ensures Kept(m, t)
    {
      assert m.(number := m.number) == m;
    }
  }

  method SymbolUsed(sets: seq<MessageSet>, name: string) returns (used: bool)
    ensures used <==> NameUsed(sets, name)
  {
    for i := 0 to |sets|
      invariant forall j :: 0 <= j < i ==> sets[j].symbol != Some(name)
    {
      if sets[i].symbol == Some(name) {
        return true;
      }
    }
    return false;
  }
}
