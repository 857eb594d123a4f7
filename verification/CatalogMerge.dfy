/**
 Merging an existing catalog into new definitions (glibc-2.27/catgets/gencat.c, read_old): new definitions win, and an
 empty new message deletes the old one.
 */
module CatalogMerge {
  import opened Optional
  import opened CatalogInput
  import opened CatalogTable
  import opened CatalogPlanes

  // ----- one list

  function Without(ms: seq<Message>, k: nat): (r: seq<Message>)
    requires k < |ms|
    ensures |r| == |ms| - 1
    ensures forall i :: 0 <= i < |r| ==> r[i] == if i < k then ms[i] else ms[i + 1]
  {
    ms[..k] + ms[k + 1..]
  }

  lemma WithoutContents(ms: seq<Message>, k: nat)
    requires k < |ms| && Ascending(ms)
    ensures Ascending(Without(ms, k)) && Contents(Without(ms, k)) == Contents(ms) - {ms[k]}
  {
    var r := Without(ms, k);
    forall m | m in ms && m != ms[k]
      ensures m in r
    {
      var i :| 0 <= i < |ms| && ms[i] == m;
      assert r[if i < k then i else i - 1] == m;
    }
  }

  ghost predicate HasNumber(ms: seq<Message>, n: nat) {
    exists i :: 0 <= i < |ms| && ms[i].number == n
  }

  /** What one old message does to the list of its set. */
  method MergeMessage(ms: seq<Message>, n: nat, text: Text) returns (r: seq<Message>, added: bool)
    requires Ascending(ms)
    ensures Ascending(r) && |r| <= |ms| + 1 && (added <==> !HasNumber(ms, n))
    ensures added ==> Contents(r) == Contents(ms) + {Message(n, text, None)}
    ensures forall m :: m in ms && m.number == n ==> if m.text == [] then Contents(r) == Contents(ms) - {m} else r == ms
  {
    var k := 0;
    while k < |ms| && ms[k].number < n
      invariant 0 <= k <= |ms| && forall i :: 0 <= i < k ==> ms[i].number < n
    {
      k := k + 1;
    }
    if k == |ms| || ms[k].number > n {
      var newp := Message(n, text, None);
      SplicedAscending(ms, k, newp);
      SplicedContents(ms, k, newp);
      r, added := Spliced(ms, k, newp), true;
    } else {
      assert HasNumber(ms, n);
      added := false;
      if ms[k].text == [] {
        WithoutContents(ms, k);
        r := Without(ms, k);
      } else {
        r := ms;
      }
    }
  }

  // ----- all sets

  ghost predicate Sorted(sets: seq<MessageSet>) {
    && (forall i :: 0 <= i < |sets| ==> sets[i].number >= 1 && Ascending(sets[i].messages))
    && (forall i, j :: 0 <= i < j < |sets| ==> sets[i].number != sets[j].number)
  }

  lemma GoodIsSorted(sets: seq<MessageSet>)
    requires GoodSets(sets)
    ensures Sorted(sets)
  {}

  ghost predicate In(s: MessageSet, e: Entry) {
    s.number == e.group &&
        exists j :: 0 <= j < |s.messages| && s.messages[j].number == e.msg && s.messages[j].text == e.text
  }

  /** A message is in the lists. */
  ghost predicate Has(sets: seq<MessageSet>, e: Entry) {
    exists i :: 0 <= i < |sets| && In(sets[i], e)
  }

  ghost predicate HasKey(sets: seq<MessageSet>, e: Entry) {
    exists t :: Has(sets, e.(text := t))
  }

  /** What one old message does to the lists. */
  ghost predicate MergeStep(sets: seq<MessageSet>, e: Entry, r: seq<MessageSet>) {
    if HasKey(sets, e) then forall x :: Has(r, x) <==> Has(sets, x) && !(SameKey(x, e) && x.text == [])
    else forall x :: Has(r, x) <==> Has(sets, x) || x == e
  }

  lemma HasAt(sets: seq<MessageSet>, k: nat, e: Entry)
    requires Sorted(sets) && k < |sets| && sets[k].number == e.group
    ensures Has(sets, e) <==> In(sets[k], e)
  {}

  lemma InSet(s: MessageSet, e: Entry)
    ensures In(s, e) <==>
      s.number == e.group && exists m :: m in Contents(s.messages) && m.number == e.msg && m.text == e.text
  {
    if s.number == e.group && exists m :: m in Contents(s.messages) && m.number == e.msg && m.text == e.text {
      var m :| m in Contents(s.messages) && m.number == e.msg && m.text == e.text;
      var j :| 0 <= j < |s.messages| && s.messages[j] == m;
    }
    if In(s, e) {
      var j :| 0 <= j < |s.messages| && s.messages[j].number == e.msg && s.messages[j].text == e.text;
      assert s.messages[j] in Contents(s.messages);
    }
  }

  /** MergeMessage, seen as a change of one set. */
  ghost predicate SetStep(s: MessageSet, e: Entry, r: MessageSet) {
    && r.number == s.number
    && (!HasNumber(s.messages, e.msg) ==> Contents(r.messages) == Contents(s.messages) + {Message(e.msg, e.text, None)})
    && (forall m :: m in s.messages && m.number == e.msg ==>
        if m.text == [] then Contents(r.messages) == Contents(s.messages) - {m} else r == s)
  }

  lemma SetStepIn(s: MessageSet, e: Entry, r: MessageSet, x: Entry)
    requires Ascending(s.messages) && s.number == e.group && SetStep(s, e, r)
    ensures !HasNumber(s.messages, e.msg) ==> (In(r, x) <==> In(s, x) || x == e)
    ensures HasNumber(s.messages, e.msg) ==> (In(r, x) <==> In(s, x) && !(SameKey(x, e) && x.text == []))
  {
    InSet(s, x);
    InSet(r, x);
    var added := Message(e.msg, e.text, None);
    if !HasNumber(s.messages, e.msg) {
      assert added in Contents(r.messages);
    } else {
      var i :| 0 <= i < |s.messages| && s.messages[i].number == e.msg;
      assert s.messages[i] in s.messages;
      UniqueClash(s.messages, e.msg, i);
      assert forall m :: m in s.messages && m.number == e.msg ==> Clash(s.messages, e.msg, m);
    }
  }

  lemma KeyAt(sets: seq<MessageSet>, k: nat, e: Entry)
    requires Sorted(sets) && k < |sets| && sets[k].number == e.group
    ensures HasKey(sets, e) <==> HasNumber(sets[k].messages, e.msg)
  {
    if i :| 0 <= i < |sets[k].messages| && sets[k].messages[i].number == e.msg {
      var x := e.(text := sets[k].messages[i].text);
      assert In(sets[k], x) && Has(sets, x);
    }
    if t :| Has(sets, e.(text := t)) {
      HasAt(sets, k, e.(text := t));
    }
  }

  lemma StepAt(sets: seq<MessageSet>, k: nat, e: Entry, s: MessageSet)
    requires Sorted(sets) && k < |sets| && sets[k].number == e.group && SetStep(sets[k], e, s) && Ascending(s.messages)
    ensures Sorted(sets[k := s]) && MergeStep(sets, e, sets[k := s])
  {
    var r := sets[k := s];
    KeyAt(sets, k, e);
    forall x
      ensures HasKey(sets, e) ==> (Has(r, x) <==> Has(sets, x) && !(SameKey(x, e) && x.text == []))
      ensures !HasKey(sets, e) ==> (Has(r, x) <==> Has(sets, x) || x == e)
    {
      SetStepIn(sets[k], e, s, x);
      if x.group == e.group {
        HasAt(sets, k, x);
        HasAt(r, k, x);
      } else {
        HasElsewhere(sets, k, s, x);
      }
    }
  }

  lemma HasElsewhere(sets: seq<MessageSet>, k: nat, s: MessageSet, x: Entry)
    requires k < |sets| && s.number == sets[k].number != x.group
    ensures Has(sets[k := s], x) <==> Has(sets, x)
  {
    var r := sets[k := s];
    forall i | 0 <= i < |sets|
      ensures In(sets[i], x) <==> In(r[i], x)
    {}
  }

  lemma HasPrepended(sets: seq<MessageSet>, number: nat, x: Entry)
    ensures Has([MessageSet(number, [], 0, None)] + sets, x) <==> Has(sets, x)
  {
    var r := [MessageSet(number, [], 0, None)] + sets;
    assert forall i :: 0 <= i < |sets| ==> r[i + 1] == sets[i];
    assert !In(r[0], x);
  }

  // ----- sizes

  lemma {:induction false} FlatReplaced(sets: seq<MessageSet>, k: nat, s: MessageSet)
    requires k < |sets|
    ensures |Flat(sets[k := s])| == |Flat(sets)| - |sets[k].messages| + |s.messages|
  {
    var p := sets[..|sets| - 1];
    if k == |p| {
      assert sets[k := s][..|p|] == p;
    } else {
      FlatReplaced(p, k, s);
      assert sets[k := s][..|p|] == p[k := s];
    }
  }

  lemma {:induction false} FlatPrepended(sets: seq<MessageSet>, s: MessageSet)
    ensures |Flat([s] + sets)| == |s.messages| + |Flat(sets)|
  {
    var all := [s] + sets;
    if sets == [] {
      FlatStep(all, 0);
      assert all[..1] == all && all[..0] == [];
    } else {
      var p := sets[..|sets| - 1];
      FlatPrepended(p, s);
      assert all[..|sets|] == [s] + p && all[|all| - 1] == sets[|sets| - 1];
    }
  }

  lemma SortedPrepended(sets: seq<MessageSet>, number: nat)
    requires Sorted(sets) && !HasSet(sets, number) && number >= 1
    ensures Sorted([MessageSet(number, [], 0, None)] + sets)
  {
    hide Ascending;
    var r := [MessageSet(number, [], 0, None)] + sets;
    assert Ascending([]) by { AscendingEmpty(); }
    forall i | 0 <= i < |r|
      ensures r[i].number >= 1 && Ascending(r[i].messages)
    {
      assert i > 0 ==> r[i] == sets[i - 1];
    }
    forall i, j | 0 <= i < j < |r|
      ensures r[i].number != r[j].number
    {
      assert r[j] == sets[j - 1] && (i > 0 ==> r[i] == sets[i - 1]);
    }
  }

  lemma AscendingEmpty()
    ensures Ascending([])
  {}

  /** FindSet changes neither the messages nor their number. */
  lemma FoundSet(sets: seq<MessageSet>, number: nat, r: seq<MessageSet>)
    requires Sorted(sets) && r == if HasSet(sets, number) then sets else [MessageSet(number, [], 0, None)] + sets
    requires number >= 1
    ensures Sorted(r) && |Flat(r)| == |Flat(sets)| && forall x :: Has(r, x) <==> Has(sets, x)
  {
    hide Sorted, Flat, Has;
    FlatPrepended(sets, MessageSet(number, [], 0, None));
    if !HasSet(sets, number) {
      SortedPrepended(sets, number);
    }
    forall x
      ensures Has(r, x) <==> Has(sets, x)
    {
      HasPrepended(sets, number, x);
    }
  }

  // ----- the merge

  /** The message in a slot of the old catalog. */
  function SlotEntry(c: Catalog, n: nat): (r: Option<Entry>)
    requires 3 * n + 3 <= |c.words|
  {
    if c.words[3 * n] == 0 then None
        else Some(Entry(c.words[3 * n], c.words[3 * n + 1], CString(c.strings, c.words[3 * n + 2])))
  }

  /** The messages in the first n slots. */
  ghost function Olds(c: Catalog, n: nat): set<Entry>
    requires 3 * n <= |c.words|
  {
    if n == 0 then {} else
      var o := SlotEntry(c, n - 1);
      if o.None? then Olds(c, n - 1) else Olds(c, n - 1) + {o.value}
  }

  ghost predicate KeyIn(es: set<Entry>, e: Entry) {
    exists x :: x in es && SameKey(x, e)
  }

  /** No key appears in two slots. */
  ghost predicate DistinctSlots(c: Catalog, slots: nat)
    requires 3 * slots <= |c.words|
  {
    forall n :: 0 <= n < slots && SlotEntry(c, n).Some? ==> !KeyIn(Olds(c, n), SlotEntry(c, n).value)
  }

  /** All messages of the lists. */
  ghost function All(sets: seq<MessageSet>): iset<Entry> {
    iset e | Has(sets, e)
  }

  ghost predicate Keyed(all: iset<Entry>, e: Entry) {
    exists t :: e.(text := t) in all
  }

  /** What one old message does: it is added if its key is new, and it drops an empty message of its key. */
  ghost function Stepped(all: iset<Entry>, e: Entry): iset<Entry> {
    if Keyed(all, e) then iset x | x in all && !(SameKey(x, e) && x.text == []) else all + iset{e}
  }

  /** What the first n slots do, one after the other. */
  ghost function Folded(all: iset<Entry>, c: Catalog, n: nat): iset<Entry>
    requires 3 * n <= |c.words|
  {
    if n == 0 then all else
      var o := SlotEntry(c, n - 1);
      if o.None? then Folded(all, c, n - 1) else Stepped(Folded(all, c, n - 1), o.value)
  }

  /** How many messages they add. */
  ghost function Inserted(all: iset<Entry>, c: Catalog, n: nat): nat
    requires 3 * n <= |c.words|
  {
    if n == 0 then 0 else
      var o := SlotEntry(c, n - 1);
      Inserted(all, c, n - 1) + if o.Some? && !Keyed(Folded(all, c, n - 1), o.value) then 1 else 0
  }

  /** The keyed merge: new definitions win, keys only in the old catalog stay, and an empty new message deletes an old
      one together with itself. */
  ghost function Merged(all: iset<Entry>, olds: set<Entry>): iset<Entry> {
    iset e | (e in all && !(e.text == [] && KeyIn(olds, e))) || (e in olds && !Keyed(all, e))
  }

  /** The messages that it adds. */
  ghost function Added(all: iset<Entry>, olds: set<Entry>): set<Entry> {
    set e | e in olds && !Keyed(all, e)
  }

  lemma SameKeyed(all: iset<Entry>, x: Entry, e: Entry)
    requires SameKey(x, e)
    ensures Keyed(all, x) <==> Keyed(all, e)
  {
    assert forall t :: x.(text := t) == e.(text := t);
  }

  lemma SameKeyIn(olds: set<Entry>, x: Entry, e: Entry)
    requires SameKey(x, e)
    ensures KeyIn(olds, x) <==> KeyIn(olds, e)
  {
    assert forall y :: SameKey(y, x) <==> SameKey(y, e);
  }

  lemma KeyInPlus(olds: set<Entry>, e: Entry, x: Entry)
    ensures KeyIn(olds + {e}, x) <==> KeyIn(olds, x) || SameKey(e, x)
  {
    if KeyIn(olds, x) {
      var y :| y in olds && SameKey(y, x);
      assert y in olds + {e};
    }
    assert e in olds + {e};
  }

  lemma MergedKey(all: iset<Entry>, olds: set<Entry>, e: Entry)
    requires !KeyIn(olds, e)
    ensures Keyed(Merged(all, olds), e) <==> Keyed(all, e)
  {
    if t :| e.(text := t) in Merged(all, olds) {
      assert SameKey(e.(text := t), e);
    }
    if t :| e.(text := t) in all {
      var x := e.(text := t);
      assert SameKey(x, e);
      SameKeyIn(olds, x, e);
      assert x in Merged(all, olds);
    }
  }

  /** One more old message, with a key of its own, is one more message merged. */
  lemma MergedStep(all: iset<Entry>, olds: set<Entry>, e: Entry)
    requires !KeyIn(olds, e)
    ensures Stepped(Merged(all, olds), e) == Merged(all, olds + {e})
  {
    MergedKey(all, olds, e);
    hide Keyed, KeyIn;
    forall x
      ensures x in Stepped(Merged(all, olds), e) <==> x in Merged(all, olds + {e})
    {
      KeyInPlus(olds, e, x);
      if SameKey(x, e) {
        SameKeyed(all, x, e);
        SameKeyIn(olds, x, e);
        if x in all {
          KeyedBy(all, x);
        }
        if x in olds {
          KeyInBy(olds, x);
        }
      }
    }
  }

  lemma KeyedBy(all: iset<Entry>, x: Entry)
    requires x in all
    ensures Keyed(all, x)
  {
    assert x.(text := x.text) == x;
  }

  lemma KeyInBy(olds: set<Entry>, x: Entry)
    requires x in olds
    ensures KeyIn(olds, x)
  {
    assert SameKey(x, x);
  }

  lemma AddedPlus(all: iset<Entry>, olds: set<Entry>, e: Entry)
    requires !KeyIn(olds, e)
    ensures |Added(all, olds + {e})| == |Added(all, olds)| + if Keyed(all, e) then 0 else 1
  {
    if e in olds {
      KeyInBy(olds, e);
    }
    hide KeyIn;
    assert Added(all, olds + {e}) == Added(all, olds) + if Keyed(all, e) then {} else {e};
  }

  /** If no key appears twice, the slots together do a keyed merge. */
  lemma {:induction false} FoldedIsMerged(all: iset<Entry>, c: Catalog, slots: nat, n: nat)
    requires n <= slots && 3 * slots <= |c.words| && DistinctSlots(c, slots)
    ensures Folded(all, c, n) == Merged(all, Olds(c, n)) && Inserted(all, c, n) == |Added(all, Olds(c, n))|
  {
    hide Stepped, Keyed, KeyIn, SlotEntry;
    if n == 0 {
      assert Merged(all, {}) == all by {
        hide Keyed;
        MergedNothing(all);
      }
      assert Added(all, {}) == {};
    } else {
      FoldedIsMerged(all, c, slots, n - 1);
      var o := SlotEntry(c, n - 1);
      if o.Some? {
        MergedStep(all, Olds(c, n - 1), o.value);
        MergedKey(all, Olds(c, n - 1), o.value);
        AddedPlus(all, Olds(c, n - 1), o.value);
      }
    }
  }

  lemma MergedNothing(all: iset<Entry>)
    ensures Merged(all, {}) == all
  {}

  lemma {:induction false} InsertedAtMost(all: iset<Entry>, c: Catalog, n: nat)
    requires 3 * n <= |c.words|
    ensures Inserted(all, c, n) <= n
  {
    if n > 0 {
      InsertedAtMost(all, c, n - 1);
    }
  }

  method MergeSlot(sets: seq<MessageSet>, k: nat, e: Entry) returns (r: seq<MessageSet>, added: bool)
    requires Sorted(sets) && k < |sets| && sets[k].number == e.group
    ensures Sorted(r) && MergeStep(sets, e, r) && |Flat(r)| <= |Flat(sets)| + 1
    ensures k < |r| && r[k].number == e.group && (added <==> !HasKey(sets, e))
  {
    hide Flat;
    var ms, inserted := MergeMessage(sets[k].messages, e.msg, e.text);
    var s := sets[k].(messages := ms);
    KeyAt(sets, k, e);
    assert SetStep(sets[k], e, s);
    hide Sorted, SetStep, HasKey, HasNumber, MergeStep;
    StepAt(sets, k, e, s);
    FlatReplaced(sets, k, s);
    r, added := sets[k := s], inserted;
  }

  lemma StepIsStepped(sets: seq<MessageSet>, e: Entry, r: seq<MessageSet>)
    requires MergeStep(sets, e, r)
    ensures All(r) == Stepped(All(sets), e) && (Keyed(All(sets), e) <==> HasKey(sets, e))
  {
    hide Has;
    assert forall t :: e.(text := t) in All(sets) <==> Has(sets, e.(text := t));
    assert Keyed(All(sets), e) <==> HasKey(sets, e);
    hide Keyed, HasKey;
  }

  /** One occupied slot.  The set of the previous slot is kept at hand. */
  method TakeSlot(now: seq<MessageSet>, lastSet: int, k: nat, e: Entry)
    returns (r: seq<MessageSet>, i: nat, added: bool)
    requires Sorted(now) && e.group >= 1 && (lastSet >= 0 ==> k < |now| && now[k].number == lastSet + 1)
    ensures Sorted(r) && All(r) == Stepped(All(now), e) && (added <==> !Keyed(All(now), e))
    ensures |Flat(r)| <= |Flat(now)| + 1 && i < |r| && r[i].number == e.group
  {
    hide Has, HasKey, Flat, Sorted, MergeStep, KeepsAll, GoodSets, HasSet, Keyed, Stepped;
    r, i := now, k;
    if e.group - 1 != lastSet {
      r, i := FindSet(now, e.group - 1);
      FoundSet(now, e.group, r);
    }
    assert All(r) == All(now);
    ghost var before := r;
    r, added := MergeSlot(r, i, e);
    StepIsStepped(before, e, r);
  }

  lemma FoldedStep(all: iset<Entry>, c: Catalog, n: nat)
    requires 3 * n + 3 <= |c.words|
    ensures var o := SlotEntry(c, n);
            if o.None? then Folded(all, c, n + 1) == Folded(all, c, n) && Inserted(all, c, n + 1) == Inserted(all, c, n)
            else Folded(all, c, n + 1) == Stepped(Folded(all, c, n), o.value) && o.value.group >= 1
                 && Inserted(all, c, n + 1) == Inserted(all, c, n) + if Keyed(Folded(all, c, n), o.value) then 0 else 1
  {
    hide Stepped, Keyed;
  }

  lemma FoldedNone(all: iset<Entry>, c: Catalog)
    ensures Folded(all, c, 0) == all && Inserted(all, c, 0) == 0
  {}

  method MergeSlots(c: Catalog, slots: nat, sets: seq<MessageSet>, total: nat) returns (r: seq<MessageSet>, t: nat)
    requires 3 * slots == |c.words| && Sorted(sets)
    ensures Sorted(r) && All(r) == Folded(All(sets), c, slots) && t == total + Inserted(All(sets), c, slots)
    ensures |Flat(r)| <= |Flat(sets)| + slots
  {
    hide Flat, Sorted, All, Keyed, Stepped, SlotEntry, Folded, Inserted;
    ghost var all := All(sets);
    FoldedNone(all, c);
    r, t := sets, total;
    var lastSet: int, k: nat := -1, 0;
    var cnt := 0;
    while cnt < slots
      invariant 0 <= cnt <= slots
      invariant Sorted(r) && All(r) == Folded(all, c, cnt) && t == total + Inserted(all, c, cnt)
      invariant |Flat(r)| <= |Flat(sets)| + cnt
      invariant lastSet >= -1 && (lastSet >= 0 ==> k < |r| && r[k].number == lastSet + 1)
    {
      var slot := SlotEntry(c, cnt);
      FoldedStep(all, c, cnt);
      if slot.Some? {
        var e, added := slot.value, false;
        r, k, added := TakeSlot(r, lastSet, k, e);
        lastSet := e.group - 1;
        if added {
          t := t + 1;
        }
      }
      cnt := cnt + 1;
    }
  }

  /**
   read_old on any old catalog: every set's list stays sorted, and the lists hold what the slots do
   one after the other; if no key appears in two slots, that is the keyed merge.
   */
  method ReadOld(c: Catalog, sets: seq<MessageSet>, total: nat) returns (r: seq<MessageSet>, t: nat)
    requires 3 * (c.size * c.depth) == |c.words| && Sorted(sets)
    ensures Sorted(r) && All(r) == Folded(All(sets), c, c.size * c.depth)
    ensures t == total + Inserted(All(sets), c, c.size * c.depth) <= total + c.size * c.depth
    ensures DistinctSlots(c, c.size * c.depth) ==> All(r) == Merged(All(sets), Olds(c, c.size * c.depth))
    ensures DistinctSlots(c, c.size * c.depth) ==> t == total + |Added(All(sets), Olds(c, c.size * c.depth))|
    ensures |Flat(r)| <= |Flat(sets)| + c.size * c.depth
  {
    hide Flat, Sorted, All, Added, Olds, DistinctSlots, Folded, Inserted, Merged;
    r, t := MergeSlots(c, c.size * c.depth, sets, total);
    InsertedAtMost(All(sets), c, c.size * c.depth);
    if DistinctSlots(c, c.size * c.depth) {
      FoldedIsMerged(All(sets), c, c.size * c.depth, c.size * c.depth);
    }
  }
}
