/**
 The planes of a catalog: filling the collision chains (glibc-2.27/catgets/gencat.c, write_out) and probing them
 (glibc-2.27/catgets/catgets.c, catgets).
 */
module CatalogPlanes {
  import opened Optional
  import opened CatalogInput
  import opened CatalogTable

  /** The word at which the slot of a bucket starts, on one plane. */
  function At(size: nat, b: nat, k: nat): nat { 3 * (b + size * k) }

  lemma AtBounds(size: nat, depth: nat, b: nat, k: nat)
    requires b < size && k < depth
    ensures At(size, b, k) + 3 <= 3 * size * depth
    ensures At(size, b, k + 1) == At(size, b, k) + size * 3
  {
    MultiplyMonotone(k + 1, depth, size);
    assert (k + 1) * size == size * k + size;
  }

  lemma AtUnique(size: nat, b: nat, k: nat, c: nat, l: nat)
    requires b < size && c < size && (b != c || k != l)
    ensures At(size, b, k) + 3 <= At(size, c, l) || At(size, c, l) + 3 <= At(size, b, k)
  {
    if k < l {
      MultiplyMonotone(k + 1, l, size);
      assert (k + 1) * size == size * k + size && l * size == size * l;
    } else if l < k {
      MultiplyMonotone(l + 1, k, size);
      assert (l + 1) * size == size * l + size && k * size == size * k;
    }
  }

  /** The strings, each with its terminator. */
  function Pool(es: seq<Entry>): seq<Byte> {
    if es == [] then [] else Pool(es[..|es| - 1]) + es[|es| - 1].text + [0]
  }

  /** The plane of a message: how many messages of its bucket come before it. */
  ghost function Level(es: seq<Entry>, size: nat, i: nat): nat
    requires size > 0 && i < |es|
  {
    Load(es[..i], size, Bucket(es[i], size))
  }

  lemma {:induction false} LevelBelowLoad(es: seq<Entry>, size: nat, i: nat)
    requires size > 0 && i < |es|
    ensures Level(es, size, i) < Load(es, size, Bucket(es[i], size))
  {
    var b := Bucket(es[i], size);
    assert es[..i + 1][..i] == es[..i];
    assert es[..i + 1] + es[i + 1..] == es;
    LoadPrefix(es[..i + 1], es[i + 1..], size, b);
  }

  /** A message sits in its bucket on its plane, with the offset of its string. */
  ghost predicate Placed(es: seq<Entry>, i: nat, size: nat, words: seq<nat>)
    requires size > 0 && i < |es|
  {
    var p := At(size, Bucket(es[i], size), Level(es, size, i));
    p + 3 <= |words| && words[p] == es[i].group && words[p + 1] == es[i].msg && words[p + 2] == |Pool(es[..i])|
  }

  ghost predicate ZeroSlot(words: seq<nat>, p: nat) {
    p + 3 <= |words| && words[p] == 0 && words[p + 1] == 0 && words[p + 2] == 0
  }

  ghost predicate Vacant(es: seq<Entry>, size: nat, depth: nat, words: seq<nat>)
    requires size > 0
  {
    forall b, k :: 0 <= b < size && Load(es, size, b) <= k < depth ==> ZeroSlot(words, At(size, b, k))
  }

  ghost predicate Filled(es: seq<Entry>, size: nat, depth: nat, words: seq<nat>) {
    && size > 0 && |words| == 3 * size * depth
    && (forall i :: 0 <= i < |es| ==> Placed(es, i, size, words))
    && Vacant(es, size, depth, words)
  }

  // ----- filling

  /** Every plane below the load of a bucket is taken. */
  lemma {:induction false} AtLevel(es: seq<Entry>, size: nat, b: nat, k: nat) returns (i: nat)
    requires size > 0 && k < Load(es, size, b)
    ensures i < |es| && Bucket(es[i], size) == b && Level(es, size, i) == k
  {
    var p := es[..|es| - 1];
    if k < Load(p, size, b) {
      i := AtLevel(p, size, b, k);
      assert p[..i] == es[..i];
    } else {
      i := |es| - 1;
    }
  }

  function Stored(words: seq<nat>, p: nat, e: Entry, offset: nat): (r: seq<nat>)
    requires p + 3 <= |words|
    ensures |r| == |words|
    ensures forall q :: 0 <= q < |r| && !(p <= q < p + 3) ==> r[q] == words[q]
    ensures r[p] == e.group && r[p + 1] == e.msg && r[p + 2] == offset
  {
    words[p := e.group][p + 1 := e.msg][p + 2 := offset]
  }

  lemma PlacedKept(es: seq<Entry>, i: nat, size: nat, words: seq<nat>, e: Entry)
    requires size > 0 && i < |es| && Placed(es, i, size, words)
    requires At(size, Bucket(e, size), Load(es, size, Bucket(e, size))) + 3 <= |words|
    ensures Placed(es + [e], i, size,
      Stored(words, At(size, Bucket(e, size), Load(es, size, Bucket(e, size))), e, |Pool(es)|))
  {
    assert (es + [e])[..i] == es[..i];
    LevelBelowLoad(es, size, i);
    AtUnique(size, Bucket(es[i], size), Level(es, size, i), Bucket(e, size), Load(es, size, Bucket(e, size)));
    hide At, Load, Bucket, Stored;
  }

  lemma VacantKept(es: seq<Entry>, size: nat, depth: nat, words: seq<nat>, e: Entry)
    requires size > 0 && Vacant(es, size, depth, words)
    requires At(size, Bucket(e, size), Load(es, size, Bucket(e, size))) + 3 <= |words|
    ensures Vacant(es + [e], size, depth,
      Stored(words, At(size, Bucket(e, size), Load(es, size, Bucket(e, size))), e, |Pool(es)|))
  {
    hide At, Bucket, Stored, Pool;
    var b0 := Bucket(e, size);
    var r := Stored(words, At(size, b0, Load(es, size, b0)), e, |Pool(es)|);
    forall b, k | 0 <= b < size && Load(es + [e], size, b) <= k < depth
      ensures ZeroSlot(r, At(size, b, k))
    {
      LoadSnoc(es, e, size, b);
      AtUnique(size, b, k, b0, Load(es, size, b0));
      assert ZeroSlot(words, At(size, b, k));
    }
  }

  /** One more message, stored in the first free slot of its bucket. */
  lemma FilledSnoc(es: seq<Entry>, size: nat, depth: nat, words: seq<nat>, e: Entry)
    requires Filled(es, size, depth, words) && Load(es, size, Bucket(e, size)) < depth
    ensures At(size, Bucket(e, size), Load(es, size, Bucket(e, size))) + 3 <= |words|
    ensures Filled(es + [e], size, depth,
      Stored(words, At(size, Bucket(e, size), Load(es, size, Bucket(e, size))), e, |Pool(es)|))
  {
    hide At, Load, Placed, Vacant, Stored;
    var b := Bucket(e, size);
    AtBounds(size, depth, b, Load(es, size, b));
    var r := Stored(words, At(size, b, Load(es, size, b)), e, |Pool(es)|);
    forall i | 0 <= i < |es + [e]|
      ensures Placed(es + [e], i, size, r)
    {
      if i < |es| {
        PlacedKept(es, i, size, words, e);
      } else {
        PlacedLast(es, size, words, e);
      }
    }
    VacantKept(es, size, depth, words, e);
  }

  lemma PlacedLast(es: seq<Entry>, size: nat, words: seq<nat>, e: Entry)
    requires size > 0 && At(size, Bucket(e, size), Load(es, size, Bucket(e, size))) + 3 <= |words|
    ensures Placed(es + [e], |es|, size,
      Stored(words, At(size, Bucket(e, size), Load(es, size, Bucket(e, size))), e, |Pool(es)|))
  {
    assert (es + [e])[..|es|] == es;
  }

  lemma FilledEmpty(size: nat, depth: nat, words: seq<nat>)
    requires size > 0 && |words| == 3 * size * depth && forall p :: 0 <= p < |words| ==> words[p] == 0
    ensures Filled([], size, depth, words)
  {
    forall b, k | 0 <= b < size && 0 <= k < depth
      ensures ZeroSlot(words, At(size, b, k))
    {
      AtBounds(size, depth, b, k);
    }
  }

  ghost predicate Numbered(es: seq<Entry>) {
    forall i :: 0 <= i < |es| ==> es[i].group >= 1
  }

  lemma SlotState(es: seq<Entry>, size: nat, depth: nat, words: seq<nat>, b: nat, k: nat)
    requires Filled(es, size, depth, words) && Numbered(es) && b < size && k <= Load(es, size, b) && k < depth
    ensures At(size, b, k) + 3 <= |words| && (words[At(size, b, k)] == 0 <==> k == Load(es, size, b))
  {
    AtBounds(size, depth, b, k);
    if k < Load(es, size, b) {
      var i := AtLevel(es, size, b, k);
      assert Placed(es, i, size, words);
    } else {
      assert ZeroSlot(words, At(size, b, k));
    }
  }

  ghost predicate Room(es: seq<Entry>, size: nat, depth: nat) {
    size > 0 && forall b :: Load(es, size, b) <= depth
  }

  lemma AtEnd(size: nat, depth: nat, b: nat)
    ensures At(size, b, depth) >= 3 * size * depth
  {}

  /** The first free slot of a bucket; none if the chain leaves the table. */
  method FreeSlot(words: array<nat>, size: nat, start: nat, ghost es: seq<Entry>, ghost depth: nat, ghost b: nat)
      returns (r: Option<nat>)
    requires Filled(es, size, depth, words[..]) && Numbered(es) && b < size && Load(es, size, b) <= depth
    requires start == At(size, b, 0)
    ensures r.Some? <==> Load(es, size, b) < depth
    ensures r.Some? ==> r.value == At(size, b, Load(es, size, b)) && r.value + 3 <= words.Length
  {
    TableLength(es, size, depth, words[..]);
    hide Filled, Load, At;
    ghost var k := 0;
    var idx := start;
    while true
      invariant k <= Load(es, size, b) && idx == At(size, b, k)
      decreases depth - k
    {
      if k == depth {
        AtEnd(size, depth, b);
      } else {
        AtBounds(size, depth, b, k);
        SlotState(es, size, depth, words[..], b, k);
      }
      if idx >= words.Length {
        return None;
      }
      if words[idx] == 0 {
        return Some(idx);
      }
      idx, k := idx + size * 3, k + 1;
    }
  }

  lemma TableLength(es: seq<Entry>, size: nat, depth: nat, words: seq<nat>)
    requires Filled(es, size, depth, words)
    ensures size > 0 && |words| == 3 * size * depth
  {}

  /** The messages of a set, as long as they find a place. */
  method FillSet(s: MessageSet, size: nat, words: array<nat>, pool: seq<Byte>, ghost depth: nat, ghost done: seq<Entry>)
      returns (r: Option<seq<Byte>>)
    requires Filled(done, size, depth, words[..]) && Numbered(done) && pool == Pool(done) && s.number >= 1
    requires Room(done, size, depth)
    modifies words
    ensures r.Some? <==> Room(done + EntriesOf(s), size, depth)
    ensures r.Some? ==> Filled(done + EntriesOf(s), size, depth, words[..]) && Numbered(done + EntriesOf(s))
    ensures r.Some? ==> r.value == Pool(done + EntriesOf(s))
  {
    hide Filled, Load, Room, At, Pool;
    ghost var es := EntriesOf(s);
    var p := pool;
    assert done + es[..0] == done;
    var j := 0;
    while j < |s.messages|
      invariant 0 <= j <= |s.messages|
      invariant Filled(done + es[..j], size, depth, words[..]) && Numbered(done + es[..j]) && p == Pool(done + es[..j])
      invariant Room(done + es[..j], size, depth)
    {
      ghost var now, e := done + es[..j], es[j];
      assert now + [e] == done + es[..j + 1];
      RoomNext(now, e, size, depth);
      PoolSnoc(now, e);
      AtStart(size, Bucket(e, size));
      var idx := FreeSlot(words, size, ((s.messages[j].number * s.number) % size) * 3, now, depth, Bucket(e, size));
      if idx.None? {
        assert now + [e] + es[j + 1..] == done + es;
        if Room(done + es, size, depth) {
          RoomPrefix(now + [e], es[j + 1..], size, depth);
        }
        return None;
      }
      FilledSnoc(now, size, depth, words[..], e);
      words[idx.value], words[idx.value + 1], words[idx.value + 2] := s.number, s.messages[j].number, |p|;
      p := p + s.messages[j].text + [0];
      j := j + 1;
    }
    assert es[..j] == es;
    return Some(p);
  }

  lemma PoolSnoc(es: seq<Entry>, e: Entry)
    ensures Pool(es + [e]) == Pool(es) + e.text + [0]
  {
    assert (es + [e])[..|es|] == es;
  }

  /** One more message has room exactly if its bucket is not full. */
  lemma RoomNext(es: seq<Entry>, e: Entry, size: nat, depth: nat)
    requires Room(es, size, depth)
    ensures Load(es, size, Bucket(e, size)) <= depth
    ensures Room(es + [e], size, depth) <==> Load(es, size, Bucket(e, size)) < depth
  {
    var b := Bucket(e, size);
    forall c
      ensures Load(es + [e], size, c) == Load(es, size, c) + if b == c then 1 else 0
    {
      LoadSnoc(es, e, size, c);
    }
  }

  lemma RoomPrefix(es: seq<Entry>, more: seq<Entry>, size: nat, depth: nat)
    requires size > 0 && Room(es + more, size, depth)
    ensures Room(es, size, depth)
  {
    forall b
      ensures Load(es, size, b) <= depth
    {
      LoadPrefix(es, more, size, b);
    }
  }

  lemma AtStart(size: nat, b: nat)
    ensures At(size, b, 0) == b * 3
  {}

  /**
   The table and the strings of a catalog.  No chain leaves the table exactly if no bucket has more
   messages than the table has planes.
   */
  method Fill(sets: seq<MessageSet>, size: nat, depth: nat) returns (words: array<nat>, strings: Option<seq<Byte>>)
    requires size > 0 && forall i :: 0 <= i < |sets| ==> sets[i].number >= 1
    ensures strings.Some? <==> Room(Flat(sets), size, depth)
    ensures strings.Some? ==> Filled(Flat(sets), size, depth, words[..]) && strings.value == Pool(Flat(sets))
  {
    words := new nat[size * depth * 3](_ => 0);
    assert size * depth * 3 == 3 * size * depth;
    FilledEmpty(size, depth, words[..]);
    assert Room([], size, depth);
    hide Filled, Room;
    var pool, i := [], 0;
    while i < |sets|
      invariant 0 <= i <= |sets|
      invariant Filled(Flat(sets[..i]), size, depth, words[..]) && Numbered(Flat(sets[..i])) &&
        pool == Pool(Flat(sets[..i]))
      invariant Room(Flat(sets[..i]), size, depth)
    {
      FlatStep(sets, i);
      strings := FillSet(sets[i], size, words, pool, depth, Flat(sets[..i]));
      if strings.None? {
        ghost var rest := FlatSplit(sets, i + 1);
        if Room(Flat(sets), size, depth) {
          RoomPrefix(Flat(sets[..i + 1]), rest, size, depth);
        }
        return;
      }
      pool := strings.value;
      i := i + 1;
    }
    assert sets[..i] == sets;
    strings := Some(pool);
  }

  lemma {:induction false} FlatSplit(sets: seq<MessageSet>, i: nat) returns (rest: seq<Entry>)
    requires i <= |sets|
    ensures Flat(sets) == Flat(sets[..i]) + rest
    decreases |sets|
  {
    if i == |sets| {
      rest := [];
      assert sets[..i] == sets;
    } else {
      var p := sets[..|sets| - 1];
      rest := FlatSplit(p, i);
      assert p[..i] == sets[..i];
      rest := rest + EntriesOf(sets[|sets| - 1]);
    }
  }

  /** A slot is either some message's or all zero. */
  lemma SlotIs(es: seq<Entry>, size: nat, depth: nat, words: seq<nat>, n: nat) returns (i: Option<nat>)
    requires Filled(es, size, depth, words) && n < size * depth
    ensures 3 * n + 3 <= |words|
    ensures i.None? ==> ZeroSlot(words, 3 * n)
    ensures i.Some? ==> i.value < |es| && words[3 * n] == es[i.value].group && words[3 * n + 1] == es[i.value].msg
                        && words[3 * n + 2] == |Pool(es[..i.value])|
    ensures i.Some? ==> n == Bucket(es[i.value], size) + size * Level(es, size, i.value)
  {
    var b, k := n % size, n / size;
    PlaneBelow(size, depth, n);
    assert 3 * n == At(size, b, k);
    AtBounds(size, depth, b, k);
    if k < Load(es, size, b) {
      var j := AtLevel(es, size, b, k);
      assert Placed(es, j, size, words);
      i := Some(j);
    } else {
      i := None;
    }
  }

  lemma PlaneBelow(size: nat, depth: nat, n: nat)
    requires size > 0 && n < size * depth
    ensures n / size < depth && n == n % size + size * (n / size)
  {
    if n / size >= depth {
      MultiplyMonotone(depth, n / size, size);
    }
  }

  // ----- probing

  datatype Catalog = Catalog(size: nat, depth: nat, words: seq<nat>, strings: seq<Byte>)

  ghost predicate Usable(c: Catalog) {
    c.size > 0 && c.depth > 0 && |c.words| == 3 * c.size * c.depth
  }

  /** The C string that starts at an offset. */
  function CString(strings: seq<Byte>, offset: nat): Text
    decreases |strings| - offset
  {
    if offset >= |strings| || strings[offset] == 0 then [] else [strings[offset]] + CString(strings, offset + 1)
  }

  ghost predicate Match(c: Catalog, group: nat, msg: nat, k: nat)
    requires Usable(c)
  {
    var p := At(c.size, (group * msg) % c.size, k);
    p + 3 <= |c.words| && c.words[p] == group && c.words[p + 1] == msg
  }

  ghost predicate Misses(c: Catalog, group: nat, msg: nat, planes: nat)
    requires Usable(c)
  {
    forall k :: 0 <= k < planes ==> !Match(c, group, msg, k)
  }

  /** The string of the first matching slot of the bucket, or the caller's string. */
  ghost predicate Answers(c: Catalog, group: nat, msg: nat, dflt: seq<Byte>, r: seq<Byte>)
    requires Usable(c)
  {
    && (Misses(c, group, msg, c.depth) ==> r == dflt)
    && (forall k :: 0 <= k < c.depth && Match(c, group, msg, k) && Misses(c, group, msg, k) ==>
          r == CString(c.strings, c.words[At(c.size, (group * msg) % c.size, k) + 2]))
  }

  /** What a lookup comes to: a string, or one of the two ways in which an odd header makes it fail. */
  datatype Reply = Reply(text: seq<Byte>) | DividesByZero | BeyondTable

  /** catgets, on any catalog whose table has the size that its header says. */
  method Catgets(desc: Option<Catalog>, group: int, message: int, dflt: seq<Byte>) returns (r: Reply)
    requires desc.Some? ==> |desc.value.words| == 3 * desc.value.size * desc.value.depth
    ensures desc.None? || group + 1 <= 0 || message < 0 ==> r == Reply(dflt)
    ensures r.DividesByZero? <==> desc.Some? && group >= 0 && message >= 0 && desc.value.size == 0
    ensures r.BeyondTable? <==> desc.Some? && group >= 0 && message >= 0 && desc.value.size > 0 && desc.value.depth == 0
    ensures desc.Some? && group >= 0 && message >= 0 && r.Reply? ==>
              Usable(desc.value) && Answers(desc.value, group + 1, message, dflt, r.text)
  {
    var g := group + 1;
    if desc.None? || g <= 0 || message < 0 {
      return Reply(dflt);
    }
    var c := desc.value;
    if c.size == 0 {
      return DividesByZero;
    }
    ghost var b := (g * message) % c.size;
    var idx := ((g * message) % c.size) * 3;
    AtStart(c.size, b);
    hide At;
    var cnt := 0;
    while true
      invariant cnt == 0 || cnt < c.depth
      invariant 0 <= cnt && idx == At(c.size, b, cnt)
      invariant Usable(c) ==> Misses(c, g, message, cnt)
      decreases c.depth - cnt
    {
      if c.depth == 0 {
        NoTable(c.size);
      } else {
        AtBounds(c.size, c.depth, b, cnt);
      }
      if idx >= |c.words| {
        return BeyondTable;
      }
      if c.words[idx] == g && c.words[idx + 1] == message {
        assert Match(c, g, message, cnt);
        return Reply(CString(c.strings, c.words[idx + 2]));
      }
      assert !Match(c, g, message, cnt);
      idx := idx + c.size * 3;
      cnt := cnt + 1;
      if cnt >= c.depth {
        break;
      }
    }
    return Reply(dflt);
  }

  lemma NoTable(size: nat)
    ensures 3 * size * 0 == 0
  {}

  lemma {:induction false} CStringAt(before: seq<Byte>, text: Text, after: seq<Byte>)
    ensures CString(before + text + [0] + after, |before|) == text
    decreases |text|
  {
    var s := before + text + [0] + after;
    if text != [] {
      assert s[|before|] == text[0] && text[0] in text;
      assert forall b :: b in text[1..] ==> b in text;
      CStringAt(before + [text[0]], text[1..], after);
      assert before + [text[0]] + text[1..] + [0] + after == s;
    }
  }

  lemma {:induction false} PoolSplit(es: seq<Entry>, i: nat) returns (after: seq<Byte>)
    requires i < |es|
    ensures Pool(es) == Pool(es[..i]) + es[i].text + [0] + after
  {
    var p := es[..|es| - 1];
    if i == |es| - 1 {
      after := [];
    } else {
      after := PoolSplit(p, i);
      assert p[..i] == es[..i];
      after := after + es[|es| - 1].text + [0];
    }
  }

  lemma PoolText(es: seq<Entry>, i: nat)
    requires i < |es|
    ensures |Pool(es[..i])| + |es[i].text| < |Pool(es)|
    ensures CString(Pool(es), |Pool(es[..i])|) == es[i].text
  {
    var after := PoolSplit(es, i);
    CStringAt(Pool(es[..i]), es[i].text, after);
  }

  ghost predicate SameKey(a: Entry, b: Entry) {
    a.group == b.group && a.msg == b.msg
  }

  ghost predicate Distinct(es: seq<Entry>) {
    forall i, j :: 0 <= i < j < |es| ==> !SameKey(es[i], es[j])
  }

  /** The catalog that write_out lays out for a list of messages. */
  ghost predicate Serves(c: Catalog, es: seq<Entry>) {
    && Usable(c) && Filled(es, c.size, c.depth, c.words) && Room(es, c.size, c.depth)
    && c.strings == Pool(es) && Numbered(es) && Distinct(es)
  }

  lemma MatchIsEntry(c: Catalog, es: seq<Entry>, group: nat, msg: nat, k: nat) returns (i: nat)
    requires Serves(c, es) && Match(c, group, msg, k) && k < c.depth && group >= 1
    ensures i < |es| && es[i].group == group && es[i].msg == msg
    ensures c.words[At(c.size, (group * msg) % c.size, k) + 2] == |Pool(es[..i])|
  {
    var b := (group * msg) % c.size;
    hide At;
    assert ZeroSlot(c.words, At(c.size, b, k)) || k < Load(es, c.size, b);
    i := AtLevel(es, c.size, b, k);
    assert Placed(es, i, c.size, c.words);
  }

  lemma EntryMatches(c: Catalog, es: seq<Entry>, i: nat)
    requires Serves(c, es) && i < |es|
    ensures Level(es, c.size, i) < c.depth && Match(c, es[i].group, es[i].msg, Level(es, c.size, i))
  {
    hide At, Load, Level, Vacant, Distinct, Pool, Numbered;
    LevelBelowLoad(es, c.size, i);
    assert Placed(es, i, c.size, c.words);
    assert es[i].group * es[i].msg == es[i].msg * es[i].group;
  }

  /** A lookup in such a catalog: the text of a message that is present, the caller's string for any other. */
  method Lookup(c: Catalog, ghost es: seq<Entry>, group: int, message: int, dflt: seq<Byte>) returns (r: seq<Byte>)
    requires Serves(c, es)
    ensures forall i :: 0 <= i < |es| && es[i].group == group + 1 && es[i].msg == message ==> r == es[i].text
    ensures (forall i :: 0 <= i < |es| ==> !(es[i].group == group + 1 && es[i].msg == message)) ==> r == dflt
  {
    var reply := Catgets(Some(c), group, message, dflt);
    r := reply.text;
    if group >= 0 && message >= 0 {
      AnswerIsRight(c, es, group + 1, message, dflt, r);
    }
  }

  lemma AnswerIsRight(c: Catalog, es: seq<Entry>, group: nat, msg: nat, dflt: seq<Byte>, r: seq<Byte>)
    requires Serves(c, es) && group >= 1
    requires Answers(c, group, msg, dflt, r)
    ensures forall i :: 0 <= i < |es| && es[i].group == group && es[i].msg == msg ==> r == es[i].text
    ensures (forall i :: 0 <= i < |es| ==> !(es[i].group == group && es[i].msg == msg)) ==> r == dflt
  {
    hide At, Filled, Room, CString, Pool;
    if k :| 0 <= k < c.depth && Match(c, group, msg, k) {
      var first := FirstMatch(c, group, msg, k);
      var i := MatchIsEntry(c, es, group, msg, first);
      PoolText(es, i);
      assert r == es[i].text;
      assert forall j :: 0 <= j < |es| && j != i ==> !SameKey(es[i], es[j]) || !SameKey(es[j], es[i]);
    } else {
      forall i | 0 <= i < |es| && es[i].group == group && es[i].msg == msg
        ensures false
      {
        EntryMatches(c, es, i);
      }
    }
  }

  lemma {:induction false} FirstMatch(c: Catalog, group: nat, msg: nat, k: nat) returns (first: nat)
    requires Usable(c) && Match(c, group, msg, k)
    ensures first <= k && Match(c, group, msg, first) && Misses(c, group, msg, first)
  {
    if l :| 0 <= l < k && Match(c, group, msg, l) {
      first := FirstMatch(c, group, msg, l);
    } else {
      first := k;
    }
  }
}
