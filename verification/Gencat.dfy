/**
 The whole way of a message: from the lists through a catalog file, possibly merged with an older file, to catgets.
 */
module Gencat {
  import opened Optional
  import opened CatalogInput
  import opened CatalogTable
  import opened CatalogPlanes
  import opened CatalogFile
  import opened CatalogMerge
  import opened CatalogRun
  import opened CatalogLines

  // ----- lists and tables

  lemma {:induction false} FlatHas(sets: seq<MessageSet>, e: Entry)
    ensures e in Flat(sets) <==> Has(sets, e)
  {
    if sets != [] {
      var p, s := sets[..|sets| - 1], sets[|sets| - 1];
      FlatHas(p, e);
      assert e in EntriesOf(s) <==> In(s, e) by {
        if In(s, e) {
          var j :| 0 <= j < |s.messages| && s.messages[j].number == e.msg && s.messages[j].text == e.text;
          assert EntriesOf(s)[j] == e;
        }
      }
      assert forall i :: 0 <= i < |p| ==> sets[i] == p[i];
      assert Has(sets, e) <==> Has(p, e) || In(s, e);
    }
  }

  lemma {:induction false} FlatDistinct(sets: seq<MessageSet>)
    requires Sorted(sets)
    ensures Distinct(Flat(sets)) && Numbered(Flat(sets))
  {
    if sets != [] {
      var p, s := sets[..|sets| - 1], sets[|sets| - 1];
      FlatDistinct(p);
      var f, g := Flat(p), EntriesOf(s);
      forall i, j | 0 <= i < j < |f + g|
        ensures !SameKey((f + g)[i], (f + g)[j])
      {
        if i < |f| <= j {
          FlatHas(p, f[i]);
          assert f[i] in f;
          var n :| 0 <= n < |p| && In(p[n], f[i]);
          assert p[n] == sets[n];
        } else if |f| <= i {
          assert (f + g)[i] == g[i - |f|] && (f + g)[j] == g[j - |f|];
        }
      }
    }
  }

  lemma {:induction false} OldsAre(c: Catalog, n: nat, e: Entry)
    requires 3 * n <= |c.words|
    ensures e in Olds(c, n) <==> exists m :: 0 <= m < n && SlotEntry(c, m) == Some(e)
  {
    if n > 0 {
      OldsAre(c, n - 1, e);
    }
  }

  /** A slot of a written catalog holds nothing, or one message that determines the slot. */
  lemma ServedSlot(c: Catalog, es: seq<Entry>, n: nat) returns (i: Option<nat>)
    requires Serves(c, es) && n < c.size * c.depth
    ensures 3 * n + 3 <= |c.words|
    ensures i.None? ==> SlotEntry(c, n) == None
    ensures i.Some? ==> i.value < |es| && SlotEntry(c, n) == Some(es[i.value])
                        && n == Bucket(es[i.value], c.size) + c.size * Level(es, c.size, i.value)
  {
    i := SlotIs(es, c.size, c.depth, c.words, n);
    if i.Some? {
      PoolText(es, i.value);
    }
  }

  lemma EntrySlot(c: Catalog, es: seq<Entry>, i: nat) returns (n: nat)
    requires Serves(c, es) && i < |es|
    ensures n < c.size * c.depth && 3 * n + 3 <= |c.words| && SlotEntry(c, n) == Some(es[i])
  {
    var b, k := Bucket(es[i], c.size), Level(es, c.size, i);
    EntryMatches(c, es, i);
    AtBounds(c.size, c.depth, b, k);
    n := b + c.size * k;
    TabIs(c.size, c.depth);
    assert Placed(es, i, c.size, c.words);
    PoolText(es, i);
  }

  /** What the merge reads from a written catalog: exactly its messages, each once. */
  lemma ServedOlds(c: Catalog, es: seq<Entry>)
    requires Serves(c, es)
    ensures 3 * (c.size * c.depth) == |c.words| && DistinctSlots(c, c.size * c.depth)
    ensures forall e :: e in Olds(c, c.size * c.depth) <==> e in es
  {
    ServesLength(c, es);
    TabIs(c.size, c.depth);
    hide Serves, Olds, SlotEntry;
    var slots := c.size * c.depth;
    forall e
      ensures e in Olds(c, slots) <==> e in es
    {
      OldsAre(c, slots, e);
      if m :| 0 <= m < slots && SlotEntry(c, m) == Some(e) {
        var i := ServedSlot(c, es, m);
      }
      if i :| 0 <= i < |es| && es[i] == e {
        var n := EntrySlot(c, es, i);
      }
    }
    forall n | 0 <= n < slots && SlotEntry(c, n).Some?
      ensures !KeyIn(Olds(c, n), SlotEntry(c, n).value)
    {
      NoEarlierKey(c, es, n);
    }
  }

  lemma NoEarlierKey(c: Catalog, es: seq<Entry>, n: nat)
    requires Serves(c, es) && n < c.size * c.depth && 3 * (c.size * c.depth) == |c.words| && SlotEntry(c, n).Some?
    ensures !KeyIn(Olds(c, n), SlotEntry(c, n).value)
  {
    var e := SlotEntry(c, n).value;
    var i := ServedSlot(c, es, n);
    forall x | x in Olds(c, n)
      ensures !SameKey(x, e)
    {
      OldsAre(c, n, x);
      var m :| 0 <= m < n && SlotEntry(c, m) == Some(x);
      var j := ServedSlot(c, es, m);
      assert i.value != j.value;
      SymmetricKey(es, i.value, j.value);
    }
  }

  lemma SymmetricKey(es: seq<Entry>, i: nat, j: nat)
    requires Distinct(es) && i < |es| && j < |es| && i != j
    ensures !SameKey(es[j], es[i])
  {
    assert i < j ==> !SameKey(es[i], es[j]);
  }

  // ----- gencat

  ghost function Elements(es: seq<Entry>): set<Entry> {
    set e | e in es
  }

  /** The file, written on some host, of a catalog that serves some messages. */
  ghost predicate Laid(file: seq<Byte>, writer: Host, c: Catalog, es: seq<Entry>) {
    Serves(c, es) && c.size < LIMIT && c.depth < LIMIT && file == Image(writer, c)
  }

  /** Such a file, with nothing truncated to its 32-bit words. */
  ghost predicate Written(file: seq<Byte>, writer: Host, c: Catalog, es: seq<Entry>) {
    Laid(file, writer, c, es) && Fits(es)
  }

  /** A table is found: by the search, or, for at most one message, by the fallback to a single slot. */
  ghost predicate Tabled(es: seq<Entry>, total: nat) {
    |es| <= 1 || exists s :: Best(es, StartSize(total), s) && s != UINT_MAX
  }

  lemma {:induction false} OneBucket(es: seq<Entry>)
    ensures Load(es, 1, 0) == |es| && forall b :: b > 0 ==> Load(es, 1, b) == 0
  {
    if es != [] {
      OneBucket(es[..|es| - 1]);
      assert Bucket(es[|es| - 1], 1) == 0;
    }
  }

  lemma OneSlot(es: seq<Entry>)
    ensures Room(es, 1, 1) <==> |es| <= 1
  {
    hide Load;
    OneBucket(es);
  }

  /** What the search finds has room for all messages exactly if there is a table. */
  lemma SearchHasRoom(es: seq<Entry>, total: nat, size: nat, depth: nat)
    requires size > 0
    requires forall s :: Best(es, StartSize(total), s) && s != UINT_MAX ==> size == s && depth == Depth(es, s)
    requires (forall s :: Best(es, StartSize(total), s) ==> s == UINT_MAX) ==> size == 1 && depth == 1
    ensures Room(es, size, depth) <==> Tabled(es, total)
    ensures 0 < size < LIMIT && 0 < depth < LIMIT
  {
    hide Best;
    if s :| Best(es, StartSize(total), s) && s != UINT_MAX {
      DepthIsLargest(es, s);
      BestBounds(es, StartSize(total), s);
    } else {
      OneSlot(es);
    }
  }

  lemma BestBounds(es: seq<Entry>, start: nat, s: nat)
    requires Best(es, start, s)
    ensures s <= UINT_MAX && Depth(es, s) <= UINT_MAX
  {
    hide Depth;
    CostBounds(es, s);
  }

  /** The size is the best one, where there is one. */
  ghost predicate BestSized(c: Catalog, es: seq<Entry>, total: nat) {
    forall s :: Best(es, StartSize(total), s) && s != UINT_MAX ==> c.size == s && c.depth == Depth(es, s)
  }

  lemma LaidOut(h: Host, c: Catalog, es: seq<Entry>)
    requires 0 < c.size < LIMIT && 0 < c.depth < LIMIT && Room(es, c.size, c.depth) &&
      Filled(es, c.size, c.depth, c.words)
    requires c.strings == Pool(es) && Numbered(es) && Distinct(es)
    ensures Laid(Image(h, c), h, c, es)
  {
    TableLength(es, c.size, c.depth, c.words);
    hide Image, Filled, Room, Numbered, Distinct;
  }

  /** write_out: a file that serves exactly these lists, with the best size, if and only if there is a table for them;
      otherwise a chain leaves the table. */
  method WriteOut(h: Host, sets: seq<MessageSet>, total: nat) returns (file: Option<seq<Byte>>)
    requires Sorted(sets)
    ensures file.Some? <==> Tabled(Flat(sets), total)
    ensures file.Some? ==> exists c :: Laid(file.value, h, c, Flat(sets)) && BestSized(c, Flat(sets), total)
  {
    FlatDistinct(sets);
    SetNumbers(sets);
    hide Sorted, Flat, Room, Best, Tabled, Filled, Laid, Numbered, Distinct, Image;
    var size, depth := BestSize(sets, total);
    SearchHasRoom(Flat(sets), total, size, depth);
    var words, strings := Fill(sets, size, depth);
    if strings.None? {
      return None;
    }
    var bytes := WriteTables(h, words, size, depth, strings.value);
    ghost var c := Catalog(size, depth, words[..], strings.value);
    LaidOut(h, c, Flat(sets));
    assert BestSized(c, Flat(sets), total);
    return Some(bytes);
  }

  lemma SetNumbers(sets: seq<MessageSet>)
    requires Sorted(sets)
    ensures forall i :: 0 <= i < |sets| ==> sets[i].number >= 1
  {}

  lemma CostBounds(es: seq<Entry>, s: nat)
    requires s > 0
    ensures s <= Cost(es, s) && Depth(es, s) <= Cost(es, s)
  {
    hide Depth;
    MultiplyMonotone(1, Depth(es, s), s);
    MultiplyMonotone(1, s, Depth(es, s));
  }

  /** Any host reads a non-empty catalog back, as far as its words hold it. */
  method ReadBack(reader: Host, file: seq<Byte>, ghost writer: Host, ghost c: Catalog, ghost es: seq<Entry>)
    returns (r: Catalog)
    requires Laid(file, writer, c, es) && es != []
    ensures r == Truncated(c) && (Fits(es) ==> r == c)
  {
    hide Serves, Image, Fits, HasMagic, Field, ReadTable, TableInside, LongEnough, Ends;
    Readable(writer, reader, c, es);
    if Fits(es) {
      NothingTruncated(c, es);
    }
    var got := Open(reader, file);
    assert got == Opened(Truncated(c));
    r := got.catalog;
  }

  /** The empty catalog is the one that is read beyond its end. */
  method ReadBackEmpty(reader: Host, file: seq<Byte>, ghost writer: Host, ghost c: Catalog) returns (got: Opened)
    requires Laid(file, writer, c, [])
    ensures got == OutOfBounds
  {
    Readable(writer, reader, c, []);
    got := Open(reader, file);
  }

  ghost predicate Manageable(count: nat, total: nat) {
    (count + 1) * StartSize(total) < UINT_MAX
  }

  // ----- gencat over an old file

  datatype Rewritten =
    | OldUnreadable          // the old file is rejected or read beyond its end
    | NoRoom                 // a chain left the table
    | Wrote(file: seq<Byte>)

  /** Merging the slots of an old catalog into the lists leaves these messages and this count of lines. */
  ghost predicate MergedWith(c: Catalog, sets: seq<MessageSet>, total: nat, es: seq<Entry>, t: nat) {
    var slots := Area(c.size, c.depth);
    && 3 * slots == |c.words|
    && (forall e :: e in es <==> e in Folded(All(sets), c, slots))
    && t == total + Inserted(All(sets), c, slots) <= total + slots && |es| <= |Flat(sets)| + slots
  }

  /** What is written: the messages of the lists, with those of the old file merged in if there is one. */
  ghost predicate Combined(h: Host, oldFile: Option<seq<Byte>>, sets: seq<MessageSet>, total: nat,
                           es: seq<Entry>, t: nat)
  {
    && Distinct(es)
    && if oldFile.None? then es == Flat(sets) && t == total
       else
         && Openable(h, oldFile.value)
         && exists c :: Describes(h, oldFile.value, c) && MergedWith(c, sets, total, es, t)
  }

  /**
   write_out for any lists and any old file, or none.  The old file must be one the reader opens;
   the new one serves exactly the lists merged with it, whenever there is a table for them.
   */
  method Update(h: Host, oldFile: Option<seq<Byte>>, sets: seq<MessageSet>, total: nat)
      returns (o: Rewritten, ghost es: seq<Entry>, ghost t: nat)
    requires Sorted(sets)
    ensures o.OldUnreadable? <==> oldFile.Some? && !Openable(h, oldFile.value)
    ensures !o.OldUnreadable? ==> Combined(h, oldFile, sets, total, es, t) && (o.NoRoom? <==> !Tabled(es, t))
    ensures o.Wrote? ==> exists c :: Laid(o.file, h, c, es) && BestSized(c, es, t)
  {
    hide Sorted, Flat, MergedWith, Laid, BestSized, Tabled, TableInside, LongEnough, Ends, Describes, Distinct;
    var r, u := sets, total;
    es, t := Flat(sets), total;
    if oldFile.Some? {
      var got := Open(h, oldFile.value);
      if !got.Opened? {
        return OldUnreadable, es, t;
      }
      r, u := MergeOld(h, oldFile.value, got.catalog, sets, total);
      es, t := Flat(r), u;
    }
    FlatDistinct(r);
    var file := WriteOut(h, r, u);
    o := if file.Some? then Wrote(file.value) else NoRoom;
  }

  /** read_old on an opened file. */
  method MergeOld(h: Host, ghost file: seq<Byte>, c: Catalog, sets: seq<MessageSet>, total: nat)
      returns (r: seq<MessageSet>, t: nat)
    requires Sorted(sets) && TableInside(h, file) && Describes(h, file, c)
    ensures Sorted(r) && MergedWith(c, sets, total, Flat(r), t)
  {
    hide Sorted, Flat, All, Folded, Inserted, TableInside, Describes, Merged, Added, Olds, DistinctSlots;
    DescribedShape(h, file, c);
    TabIs(c.size, c.depth);
    r, t := ReadOld(c, sets, total);
    FlatIsAll(r);
  }

  lemma FlatIsAll(sets: seq<MessageSet>)
    ensures forall e :: e in Flat(sets) <==> e in All(sets)
  {
    hide Flat;
    forall e
      ensures e in Flat(sets) <==> e in All(sets)
    {
      FlatHas(sets, e);
    }
  }

  /** For an old file that gencat wrote on any host, that is the keyed merge of both. */
  lemma UpdateMerges(h: Host, oldFile: seq<Byte>, oldHost: Host, oldCat: Catalog, oldEs: seq<Entry>,
                     sets: seq<MessageSet>, total: nat, es: seq<Entry>, t: nat)
    requires Written(oldFile, oldHost, oldCat, oldEs) && oldEs != []
    ensures Openable(h, oldFile)
    ensures Combined(h, Some(oldFile), sets, total, es, t) ==>
              && (forall e :: e in es <==> e in Merged(All(sets), Elements(oldEs)))
              && t == total + |Added(All(sets), Elements(oldEs))|
              && (var slots := Area(oldCat.size, oldCat.depth);
                  Manageable(|Flat(sets)| + slots, total + slots) ==> Tabled(es, t))
  {
    hide Flat, All, Folded, Inserted, Merged, Added, Olds, DistinctSlots, Serves, Fits, TableInside, LongEnough, Ends,
         Field, ReadTable, Manageable, Tabled, Image, Distinct;
    Readable(oldHost, h, oldCat, oldEs);
    NothingTruncated(oldCat, oldEs);
    if Combined(h, Some(oldFile), sets, total, es, t) {
      var c :| Describes(h, oldFile, c) && MergedWith(c, sets, total, es, t);
      assert c == oldCat;
      var slots := Area(oldCat.size, oldCat.depth);
      ServedOlds(oldCat, oldEs);
      assert Olds(oldCat, slots) == Elements(oldEs);
      FoldedIsMerged(All(sets), oldCat, slots, slots);
      if Manageable(|Flat(sets)| + slots, total + slots) {
        StillFits(|Flat(sets)| + slots, total + slots, es, t);
      }
    }
  }

  lemma StillFits(count: nat, sum: nat, es: seq<Entry>, total: nat)
    requires Manageable(count, sum) && |es| <= count && total <= sum
    ensures Tabled(es, total)
  {
    MultiplyMonotone(|es| + 1, count + 1, StartSize(total));
    MultiplyMonotone(StartSize(total), StartSize(sum), count + 1);
    hide Cost;
    OrdinaryFits(es, total);
    var best := BestExists(es, StartSize(total), StartSize(total));
    CostBounds(es, best);
  }

  // ----- from the lists to catgets

  /** What a lookup in a written catalog comes to. */
  datatype Outcome =
    | Answer(text: seq<Byte>)
    | BadOldFile           // the old file is rejected or read beyond its end
    | NoTable              // a chain left the table
    | Failed               // the file could not be read back or probed

  /** The lookup that some messages stand for. */
  ghost predicate AnswersFrom(es: seq<Entry>, group: int, message: int, dflt: seq<Byte>, r: seq<Byte>) {
    && (forall e :: e in es && e.group == group + 1 && e.msg == message ==> r == e.text)
    && ((forall e :: e in es ==> !(e.group == group + 1 && e.msg == message)) ==> r == dflt)
  }

  /** The same lookup, with the strings at the offsets that 32-bit words hold. */
  ghost predicate AnswersStored(es: seq<Entry>, group: int, message: int, dflt: seq<Byte>, r: seq<Byte>) {
    && (forall i :: 0 <= i < |es| && es[i].group == group + 1 && es[i].msg == message ==> r == StoredText(es, i))
    && ((forall i :: 0 <= i < |es| ==> !(es[i].group == group + 1 && es[i].msg == message)) ==> r == dflt)
  }

  lemma {:induction false} PoolGrows(es: seq<Entry>, i: nat)
    requires i < |es|
    ensures |Pool(es[..i])| < |Pool(es)|
  {
    PoolText(es, i);
  }

  /** They are the same while the strings take no more than 2^32 bytes. */
  lemma StoredIsFrom(es: seq<Entry>, group: int, message: int, dflt: seq<Byte>, r: seq<Byte>)
    requires Fits(es) && AnswersStored(es, group, message, dflt, r)
    ensures AnswersFrom(es, group, message, dflt, r)
  {
    hide Pool, StoredText, Ints;
    forall e | e in es && e.group == group + 1 && e.msg == message
      ensures r == e.text
    {
      var i :| 0 <= i < |es| && es[i] == e;
      PoolGrows(es, i);
      StoredIsText(es, i);
    }
    if forall e :: e in es ==> !(e.group == group + 1 && e.msg == message) {
      assert forall i :: 0 <= i < |es| ==> es[i] in es;
    }
  }

  lemma ReplyIsStored(c: Catalog, es: seq<Entry>, group: int, message: int, dflt: seq<Byte>, reply: Reply)
    requires Serves(c, es) && Ints(es) && Usable(Truncated(c))
    requires group < 0 || message < 0 ==> reply == Reply(dflt)
    requires group >= 0 && message >= 0 ==>
               reply.Reply? && Answers(Truncated(c), group + 1, message, dflt, reply.text)
    ensures reply.Reply? && AnswersStored(es, group, message, dflt, reply.text)
  {
    hide Answers, Ints, StoredText, Truncated;
    if group >= 0 && message >= 0 {
      StoredAnswer(c, es, group + 1, message, dflt, reply.text);
    }
    hide Filled, Room, Distinct;
  }

  lemma ServesUsable(c: Catalog, es: seq<Entry>)
    requires Serves(c, es)
    ensures Usable(c) && Usable(Truncated(c))
  {}

  /** What opening a written file gives. */
  lemma OpensAs(file: seq<Byte>, writer: Host, reader: Host, c: Catalog, es: seq<Entry>, got: Opened)
    requires Laid(file, writer, c, es)
    requires got.Opened? <==> Openable(reader, file)
    requires got.Opened? ==> Describes(reader, file, got.catalog)
    ensures es == [] ==> !got.Opened?
    ensures es != [] ==> got == Opened(Truncated(c))
  {
    Readable(writer, reader, c, es);
    hide Serves, Image, HasMagic, Field, ReadTable, TableInside, LongEnough, Ends, Truncated;
  }

  /**
   Opening a written file on any host and looking a message up in it: the empty catalog is read
   beyond its end, and any other answers with the strings at the offsets of its messages.
   */
  method Consult(reader: Host, file: seq<Byte>, ghost writer: Host, ghost c: Catalog, ghost es: seq<Entry>,
                 group: int, message: int, dflt: seq<Byte>)
      returns (o: Outcome)
    requires Laid(file, writer, c, es)
    ensures es == [] ==> o.Failed?
    ensures es != [] ==> o.Answer? && (Ints(es) ==> AnswersStored(es, group, message, dflt, o.text))
  {
    ServesUsable(c, es);
    hide Ints, AnswersStored, TableInside, LongEnough, Ends, Describes, Image, Serves, LastString, Answers, Truncated;
    var got := Open(reader, file);
    OpensAs(file, writer, reader, c, es, got);
    if !got.Opened? {
      return Failed;
    }
    var reply := Catgets(Some(got.catalog), group, message, dflt);
    if Ints(es) {
      ReplyIsStored(c, es, group, message, dflt, reply);
    }
    return Answer(reply.text);
  }

  /** What becomes of a lookup in the file that the lists, and an old file if there is one, are written to. */
  ghost predicate Published(writer: Host, oldFile: Option<seq<Byte>>, sets: seq<MessageSet>, total: nat,
                            es: seq<Entry>, t: nat, group: int, message: int, dflt: seq<Byte>, o: Outcome)
  {
    && (o.BadOldFile? <==> oldFile.Some? && !Openable(writer, oldFile.value))
    && (!o.BadOldFile? ==>
         && Combined(writer, oldFile, sets, total, es, t)
         && (o.NoTable? <==> !Tabled(es, t))
         && (o.Failed? <==> es == [])
         && (o.Answer? && Ints(es) ==> AnswersStored(es, group, message, dflt, o.text)))
  }

  /**
   From the lists to catgets, over any old file and any pair of hosts: without a table nothing is
   written, the empty catalog is read beyond its end, and any other catalog answers every lookup.
   */
  method Publish(writer: Host, reader: Host, oldFile: Option<seq<Byte>>, sets: seq<MessageSet>, total: nat,
                 group: int, message: int, dflt: seq<Byte>)
      returns (o: Outcome)
    requires Sorted(sets)
    ensures exists es, t :: Published(writer, oldFile, sets, total, es, t, group, message, dflt, o)
  {
    hide Sorted, Flat, Ints, Laid, AnswersStored, BestSized, Tabled, Combined, Openable;
    var w, es, t := Update(writer, oldFile, sets, total);
    EmptyTabled(es, t);
    match w {
      case OldUnreadable =>
        o := BadOldFile;
      case NoRoom =>
        o := NoTable;
      case Wrote(file) =>
        ghost var c :| Laid(file, writer, c, es) && BestSized(c, es, t);
        o := Consult(reader, file, writer, c, es, group, message, dflt);
    }
    assert Published(writer, oldFile, sets, total, es, t, group, message, dflt, o);
  }

  lemma EmptyTabled(es: seq<Entry>, total: nat)
    ensures es == [] ==> Tabled(es, total)
  {}

  // ----- from the lines to catgets

  /** What the lines, read one after the other from the start, come to for a lookup. */
  ghost predicate Compiled(writer: Host, oldFile: Option<seq<Byte>>, states: seq<Lists>, ds: seq<Directive>,
                           es: seq<Entry>, t: nat, group: int, message: int, dflt: seq<Byte>, o: Outcome)
  {
    && Begun(states, ds)
    && Published(writer, oldFile, states[|ds|].sets, states[|ds|].total, es, t, group, message, dflt, o)
  }

  /** The whole way: any lines, compiled over any old file on one host, looked up on another. */
  method Compile(writer: Host, reader: Host, oldFile: Option<seq<Byte>>, ds: seq<Directive>,
                 group: int, message: int, dflt: seq<Byte>)
      returns (o: Outcome)
    ensures exists states, es, t :: Compiled(writer, oldFile, states, ds, es, t, group, message, dflt, o)
  {
    var b := new Builder();
    ghost var states := b.ReadInput(ds);
    SortedNow(b.Now());
    hide Sorted, Run, NewLists, Published;
    o := Publish(writer, reader, oldFile, b.sets, b.total, group, message, dflt);
    ghost var es, t :| Published(writer, oldFile, b.sets, b.total, es, t, group, message, dflt, o);
    assert Compiled(writer, oldFile, states, ds, es, t, group, message, dflt, o);
  }

  /**
   Line i is accepted, its "$set" line names set `group`, and its message is number `message` of
   that set at the end.
   */
  ghost predicate LineFor(states: seq<Lists>, ds: seq<Directive>, i: nat, group: int, message: int)
    requires i < |ds| < |states|
  {
    && Accepted(states[i], ds[i]) && group >= 0 && BelongsTo(states, ds, i, group)
    && exists m :: IsOf(m, ds[i]) && m.number == message && Holds(states[|ds|].sets, group + 1, m)
  }

  lemma LineSet(states: seq<Lists>, ds: seq<Directive>, i: nat)
    requires Begun(states, ds) && i < |ds|
    ensures states[i].current >= 1 && BelongsTo(states, ds, i, states[i].current - 1)
    ensures forall group :: BelongsTo(states, ds, i, group) ==> states[i].current == group + 1
  {
    assert GoodLists(states[i]);
    hide Run, NewLists, BelongsTo, GoodSet;
    CurrentSet(states, ds, i);
    forall group | BelongsTo(states, ds, i, group)
      ensures states[i].current == group + 1
    {
      CurrentExactly(states, ds, i, group);
    }
  }

  /** A numbered line that is accepted keeps its number to the end. */
  lemma NumberedLine(states: seq<Lists>, ds: seq<Directive>, i: nat)
    requires Begun(states, ds) && i < |ds| && Accepted(states[i], ds[i]) && ds[i].NumberedMessage?
    ensures LineFor(states, ds, i, states[i].current - 1, ds[i].n)
  {
    hide Accepted, Holds, Run, BelongsTo, NewLists;
    LineSet(states, ds, i);
    AcceptedStays(states, ds, i, |ds|);
  }

  /** A symbolic one has some number. */
  lemma SymbolicLine(states: seq<Lists>, ds: seq<Directive>, i: nat) returns (n: nat)
    requires Begun(states, ds) && i < |ds| && Accepted(states[i], ds[i]) && ds[i].SymbolicMessage?
    ensures LineFor(states, ds, i, states[i].current - 1, n)
  {
    hide Accepted, Holds, Run, BelongsTo, NewLists;
    LineSet(states, ds, i);
    AcceptedStays(states, ds, i, |ds|);
    var m :| Holds(states[|ds|].sets, states[i].current, m) && IsOf(m, ds[i]);
    n := m.number;
  }

  function LineText(d: Directive): Text {
    match d
    case SetNumber(_) => []
    case SetSymbol(_) => []
    case NumberedMessage(_, text) => text
    case SymbolicMessage(_, text) => text
  }

  lemma EntryOf(sets: seq<MessageSet>, number: nat, m: Message)
    requires Holds(sets, number, m)
    ensures Entry(number, m.number, m.text) in Flat(sets)
  {
    var e := Entry(number, m.number, m.text);
    FlatHas(sets, e);
    var k :| 0 <= k < |sets| && sets[k].number == number && m in Contents(sets[k].messages);
    var j :| 0 <= j < |sets[k].messages| && sets[k].messages[j] == m;
    assert In(sets[k], e);
  }

  lemma MessageOf(sets: seq<MessageSet>, e: Entry) returns (m: Message)
    requires e in Flat(sets)
    ensures Holds(sets, e.group, m) && m.number == e.msg && m.text == e.text
  {
    FlatHas(sets, e);
    var k :| 0 <= k < |sets| && In(sets[k], e);
    var j :| 0 <= j < |sets[k].messages| && sets[k].messages[j].number == e.msg && sets[k].messages[j].text == e.text;
    m := sets[k].messages[j];
    assert m in Contents(sets[k].messages);
  }

  /** The message of such a line is among those of the lists. */
  lemma LineEntry(states: seq<Lists>, ds: seq<Directive>, i: nat, group: int, message: int)
    requires i < |ds| < |states| && LineFor(states, ds, i, group, message)
    ensures group + 1 >= 0 && message >= 0 && Entry(group + 1, message, LineText(ds[i])) in Flat(states[|ds|].sets)
  {
    hide Flat, Accepted, Holds, BelongsTo;
    var sets := states[|ds|].sets;
    var m :| IsOf(m, ds[i]) && m.number == message && Holds(sets, group + 1, m);
    EntryOf(sets, group + 1, m);
  }

  /** And every message of the lists is that of such a line. */
  lemma EntryLine(states: seq<Lists>, ds: seq<Directive>, e: Entry) returns (i: nat)
    requires Begun(states, ds) && e in Flat(states[|ds|].sets)
    ensures i < |ds| && LineFor(states, ds, i, e.group - 1, e.msg) && LineText(ds[i]) == e.text
  {
    hide Flat, Accepted, Holds, Run, Blank, BelongsTo, NewLists;
    StartIsBlank();
    var m := MessageOf(states[|ds|].sets, e);
    i := OnlyAccepted(states, ds, |ds|, e.group, m);
    LineSet(states, ds, i);
  }

  /** The answer that the lines stand for: the text of the line with this number, or the default. */
  ghost predicate AnswersLines(states: seq<Lists>, ds: seq<Directive>, group: int, message: int, dflt: seq<Byte>,
                               r: seq<Byte>)
    requires |states| == |ds| + 1
  {
    && (forall i :: 0 <= i < |ds| && LineFor(states, ds, i, group, message) ==> r == LineText(ds[i]))
    && ((forall i :: 0 <= i < |ds| ==> !LineFor(states, ds, i, group, message)) ==> r == dflt)
  }

  ghost predicate HasOld(olds: set<Entry>, group: int, message: int) {
    exists e :: e in olds && e.group == group + 1 && e.msg == message
  }

  /**
   The answer that the lines over old messages stand for: the text of the line with this number,
   where an empty one deletes an old message; without a line, the old text, or the default.
   */
  ghost predicate AnswersOver(states: seq<Lists>, ds: seq<Directive>, olds: set<Entry>, group: int, message: int,
                              dflt: seq<Byte>, r: seq<Byte>)
    requires |states| == |ds| + 1
  {
    && (forall i :: 0 <= i < |ds| && LineFor(states, ds, i, group, message) ==>
          r == if LineText(ds[i]) == [] && HasOld(olds, group, message) then dflt else LineText(ds[i]))
    && ((forall i :: 0 <= i < |ds| ==> !LineFor(states, ds, i, group, message)) ==>
          && (forall e :: e in olds && e.group == group + 1 && e.msg == message ==> r == e.text)
          && (!HasOld(olds, group, message) ==> r == dflt))
  }

  lemma SortedNow(s: Lists)
    requires GoodLists(s)
    ensures Sorted(s.sets)
  {
    GoodIsSorted(s.sets);
  }

  /** Without an old file, the lines answer. */
  lemma CompiledAlone(writer: Host, states: seq<Lists>, ds: seq<Directive>, es: seq<Entry>, t: nat,
                      group: int, message: int, dflt: seq<Byte>, o: Outcome)
    requires Compiled(writer, None, states, ds, es, t, group, message, dflt, o) && o.Answer? && Fits(es)
    ensures |states| == |ds| + 1 && AnswersLines(states, ds, group, message, dflt, o.text)
  {
    FitsInts(es);
    hide Flat, LineFor, Run, NewLists, Fits, Tabled, Distinct, AnswersStored, AnswersFrom, AnswersLines;
    StoredIsFrom(es, group, message, dflt, o.text);
    assert es == Flat(states[|ds|].sets);
    ListsAnswer(states, ds, group, message, dflt, o.text);
  }

  lemma ListsAnswer(states: seq<Lists>, ds: seq<Directive>, group: int, message: int, dflt: seq<Byte>, r: seq<Byte>)
    requires Begun(states, ds) && AnswersFrom(Flat(states[|ds|].sets), group, message, dflt, r)
    ensures AnswersLines(states, ds, group, message, dflt, r)
  {
    hide Flat, LineFor, Run, NewLists;
    var es := Flat(states[|ds|].sets);
    forall i | 0 <= i < |ds| && LineFor(states, ds, i, group, message)
      ensures r == LineText(ds[i])
    {
      LineEntry(states, ds, i, group, message);
    }
    forall e | e in es && e.group == group + 1 && e.msg == message
      ensures exists i :: 0 <= i < |ds| && LineFor(states, ds, i, group, message)
    {
      var i := EntryLine(states, ds, e);
    }
  }

  /**
   Under "$set" with a number, or before any "$set" for set 1, the text of an accepted numbered line
   is what catgets answers for these two numbers.
   */
  lemma AnswersUnderSet(writer: Host, states: seq<Lists>, ds: seq<Directive>, es: seq<Entry>, t: nat,
                        i: nat, group: nat, dflt: seq<Byte>, o: Outcome)
    requires i < |ds| && ds[i].NumberedMessage?
    requires Compiled(writer, None, states, ds, es, t, group, ds[i].n, dflt, o) && o.Answer? && Fits(es)
    requires Accepted(states[i], ds[i])
    requires || (group == 1 && forall j: nat :: j < i ==> !Chooses(states, ds, j))
             || exists j: nat :: LastChoice(states, ds, j, i) && ds[j] == SetNumber(group)
    ensures o.text == ds[i].text
  {
    hide Fits, Tabled, Accepted, Run, NewLists, Published, Chooses, NextFree;
    CurrentSet(states, ds, i);
    NumberedLine(states, ds, i);
    CompiledAlone(writer, states, ds, es, t, group, ds[i].n, dflt, o);
  }

  /** Over an old file that gencat wrote on any host, the lines answer together with its messages. */
  lemma CompiledOver(writer: Host, oldFile: seq<Byte>, oldHost: Host, oldCat: Catalog, oldEs: seq<Entry>,
                     states: seq<Lists>, ds: seq<Directive>, es: seq<Entry>, t: nat,
                     group: int, message: int, dflt: seq<Byte>, o: Outcome)
    requires Written(oldFile, oldHost, oldCat, oldEs) && oldEs != []
    requires Compiled(writer, Some(oldFile), states, ds, es, t, group, message, dflt, o) && o.Answer? && Fits(es)
    ensures |states| == |ds| + 1
    ensures AnswersOver(states, ds, Elements(oldEs), group, message, dflt, o.text)
  {
    FitsInts(es);
    SortedNow(states[|ds|]);
    hide Flat, LineFor, Run, NewLists, Fits, Tabled, Distinct, AnswersStored, Combined, Written, Sorted, Merged,
         Elements, HasOld, AnswersFrom, AnswersOver, Added, Manageable;
    StoredIsFrom(es, group, message, dflt, o.text);
    UpdateMerges(writer, oldFile, oldHost, oldCat, oldEs, states[|ds|].sets, states[|ds|].total, es, t);
    FlatDistinct(states[|ds|].sets);
    MergedAnswers(states, ds, Elements(oldEs), es, group, message, dflt, o.text);
  }

  /** A message of the lists that has the key of a line is that of the line. */
  lemma OneEntry(sets: seq<MessageSet>, a: Entry, b: Entry)
    requires Distinct(Flat(sets)) && a in Flat(sets) && b in Flat(sets) && SameKey(a, b)
    ensures a == b
  {
    hide Flat;
    var es := Flat(sets);
    assert SameKey(b, a);
    var i :| 0 <= i < |es| && es[i] == a;
    var j :| 0 <= j < |es| && es[j] == b;
  }

  lemma MergedAnswers(states: seq<Lists>, ds: seq<Directive>, olds: set<Entry>, es: seq<Entry>,
                      group: int, message: int, dflt: seq<Byte>, r: seq<Byte>)
    requires Begun(states, ds) && Distinct(Flat(states[|ds|].sets))
    requires forall e :: e in es <==> e in Merged(All(states[|ds|].sets), olds)
    requires AnswersFrom(es, group, message, dflt, r)
    ensures AnswersOver(states, ds, olds, group, message, dflt, r)
  {
    hide Flat, LineFor, Run, NewLists, Distinct, All;
    var sets := states[|ds|].sets;
    FlatIsAll(sets);
    forall i | 0 <= i < |ds| && LineFor(states, ds, i, group, message)
      ensures r == if LineText(ds[i]) == [] && HasOld(olds, group, message) then dflt else LineText(ds[i])
    {
      LineEntry(states, ds, i, group, message);
      LineWins(sets, olds, es, Entry(group + 1, message, LineText(ds[i])), dflt, r);
    }
    if forall i :: 0 <= i < |ds| ==> !LineFor(states, ds, i, group, message) {
      forall e | e in All(sets) && e.group == group + 1 && e.msg == message
        ensures false
      {
        var i := EntryLine(states, ds, e);
      }
      OldAnswers(All(sets), olds, es, group, message, dflt, r);
    }
  }

  lemma LineWins(sets: seq<MessageSet>, olds: set<Entry>, es: seq<Entry>, x: Entry, dflt: seq<Byte>, r: seq<Byte>)
    requires forall e :: e in es <==> e in Merged(All(sets), olds)
    requires Distinct(Flat(sets)) && x in Flat(sets) && AnswersFrom(es, x.group - 1, x.msg, dflt, r)
    ensures r == if x.text == [] && HasOld(olds, x.group - 1, x.msg) then dflt else x.text
  {
    hide Flat, Distinct, All;
    FlatIsAll(sets);
    assert KeyIn(olds, x) <==> HasOld(olds, x.group - 1, x.msg);
    if x.text == [] && KeyIn(olds, x) {
      forall e | e in es && e.group == x.group && e.msg == x.msg
        ensures false
      {
        assert e.(text := x.text) == x;
        assert Keyed(All(sets), e);
        OneEntry(sets, e, x);
      }
    } else {
      assert x in es;
    }
  }

  lemma OldAnswers(all: iset<Entry>, olds: set<Entry>, es: seq<Entry>, group: int, message: int, dflt: seq<Byte>,
                   r: seq<Byte>)
    requires forall e :: e in es <==> e in Merged(all, olds)
    requires forall e :: e in all ==> !(e.group == group + 1 && e.msg == message)
    requires AnswersFrom(es, group, message, dflt, r)
    ensures forall e :: e in olds && e.group == group + 1 && e.msg == message ==> r == e.text
    ensures !HasOld(olds, group, message) ==> r == dflt
  {
    forall e | e in olds && e.group == group + 1 && e.msg == message
      ensures r == e.text
    {
      assert !Keyed(all, e);
      assert e in es;
    }
  }
}
