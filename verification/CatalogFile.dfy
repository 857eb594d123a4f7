/**
 Catalog files (glibc-2.27/catgets/gencat.c, the end of write_out, and open_catalog.c, from the file contents on).
 A file holds its header in the byte order of the host that wrote it, and its table in both byte orders.
 */
module CatalogFile {
  import opened Optional
  import opened CatalogInput
  import opened CatalogTable
  import opened CatalogPlanes

  const MAGIC: nat := 0x960408de
  const LIMIT: nat := 0x1_0000_0000

  datatype Host = Little | Big

  // ----- words

  function Digit(w: nat, i: nat): Byte
    requires i < 4
  {
    if i == 0 then w % 256 else if i == 1 then w / 256 % 256 else if i == 2 then w / 256 / 256 % 256
        else w / 256 / 256 / 256 % 256
  }

  function Number(a: Byte, b: Byte, c: Byte, d: Byte): (w: nat)
    ensures w < LIMIT
  {
    a + 256 * (b + 256 * (c + 256 * d))
  }

  lemma NumberDigits(w: nat)
    requires w < LIMIT
    ensures Number(Digit(w, 0), Digit(w, 1), Digit(w, 2), Digit(w, 3)) == w
  {
    var q1 := w / 256;
    var q2 := q1 / 256;
    var q3 := q2 / 256;
    assert w == 256 * q1 + Digit(w, 0) && q1 == 256 * q2 + Digit(w, 1) && q2 == 256 * q3 + Digit(w, 2);
    assert q3 < 256;
  }

  lemma DigitsNumber(a: Byte, b: Byte, c: Byte, d: Byte)
    ensures var w := Number(a, b, c, d); Digit(w, 0) == a && Digit(w, 1) == b && Digit(w, 2) == c && Digit(w, 3) == d
  {
    var w := Number(a, b, c, d);
    assert w / 256 == b + 256 * (c + 256 * d);
    assert w / 256 / 256 == c + 256 * d;
  }

  /** The bytes of a word in memory. */
  function Store(h: Host, w: nat): (r: seq<Byte>)
    ensures |r| == 4
  {
    if h.Little? then [Digit(w, 0), Digit(w, 1), Digit(w, 2), Digit(w, 3)]
        else [Digit(w, 3), Digit(w, 2), Digit(w, 1), Digit(w, 0)]
  }

  function Fetch(h: Host, bs: seq<Byte>): (w: nat)
    requires |bs| == 4
    ensures w < LIMIT
  {
    if h.Little? then Number(bs[0], bs[1], bs[2], bs[3]) else Number(bs[3], bs[2], bs[1], bs[0])
  }

  function Swap(w: nat): (r: nat)
    ensures r < LIMIT
  {
    Number(Digit(w, 3), Digit(w, 2), Digit(w, 1), Digit(w, 0))
  }

  lemma SwapTwice(w: nat)
    requires w < LIMIT
    ensures Swap(Swap(w)) == w
  {
    DigitsNumber(Digit(w, 3), Digit(w, 2), Digit(w, 1), Digit(w, 0));
    NumberDigits(w);
    hide Digit, Number;
  }

  /** Reading in the writer's byte order gives the word, reading in the other one swaps it. */
  lemma FetchStore(h: Host, h': Host, w: nat)
    requires w < LIMIT
    ensures Fetch(h', Store(h, w)) == if h == h' then w else Swap(w)
  {
    NumberDigits(w);
    hide Digit, Number;
  }

  /** Swapping and storing is storing in the other byte order. */
  lemma StoreSwap(h: Host, w: nat)
    ensures Store(h, Swap(w)) == Store(if h.Little? then Big else Little, w)
  {
    DigitsNumber(Digit(w, 3), Digit(w, 2), Digit(w, 1), Digit(w, 0));
    hide Digit, Number;
  }

  function StoreAll(h: Host, ws: seq<nat>): (r: seq<Byte>)
    ensures |r| == 4 * |ws|
  {
    if ws == [] then [] else StoreAll(h, ws[..|ws| - 1]) + Store(h, ws[|ws| - 1])
  }

  lemma {:induction false} StoreAllAt(h: Host, ws: seq<nat>, i: nat)
    requires i < |ws|
    ensures StoreAll(h, ws)[4 * i..4 * i + 4] == Store(h, ws[i])
  {
    hide Store;
    var n := |ws| - 1;
    var a, b := StoreAll(h, ws[..n]), Store(h, ws[n]);
    assert StoreAll(h, ws) == a + b;
    hide StoreAll;
    if i < n {
      StoreAllAt(h, ws[..n], i);
      assert (a + b)[4 * i..4 * i + 4] == a[4 * i..4 * i + 4];
    }
  }

  ghost predicate AllWords(ws: seq<nat>) {
    forall i :: 0 <= i < |ws| ==> ws[i] < LIMIT
  }

  lemma {:induction false} StoreAllSwapped(h: Host, ws: seq<nat>, vs: seq<nat>)
    requires |vs| == |ws| && forall i :: 0 <= i < |ws| ==> vs[i] == Swap(ws[i])
    ensures StoreAll(h, vs) == StoreAll(if h.Little? then Big else Little, ws)
  {
    hide Store, Swap;
    if ws != [] {
      StoreAllSwapped(h, ws[..|ws| - 1], vs[..|vs| - 1]);
      StoreSwap(h, ws[|ws| - 1]);
    }
  }

  // ----- writing

  function Header(h: Host, c: Catalog): (r: seq<Byte>)
    ensures |r| == 12
  {
    Store(h, MAGIC) + Store(h, c.size) + Store(h, c.depth)
  }

  /** The file of a catalog, as a host of either byte order writes it. */
  function Image(h: Host, c: Catalog): seq<Byte> {
    Header(h, c) + StoreAll(Little, c.words) + StoreAll(Big, c.words) + c.strings
  }

  method SwapAll(native: array<nat>) returns (swapped: array<nat>)
    ensures swapped.Length == native.Length && forall i :: 0 <= i < native.Length ==> swapped[i] == Swap(native[i])
  {
    hide Swap;
    swapped := new nat[native.Length];
    var cnt := 0;
    while cnt < native.Length
      invariant 0 <= cnt <= native.Length
      invariant forall i :: 0 <= i < cnt ==> swapped[i] == Swap(native[i])
    {
      swapped[cnt] := Swap(native[cnt]);
      cnt := cnt + 1;
    }
  }

  method WriteTables(h: Host, native: array<nat>, size: nat, depth: nat, strings: seq<Byte>) returns (file: seq<Byte>)
    ensures file == Image(h, Catalog(size, depth, native[..], strings))
  {
    hide Store, Swap;
    var swapped := SwapAll(native);
    file := Store(h, MAGIC) + Store(h, size) + Store(h, depth);
    StoreAllSwapped(h, native[..], swapped[..]);
    if h.Little? {
      file := file + StoreAll(h, native[..]) + StoreAll(h, swapped[..]);
    } else {
      file := file + StoreAll(h, swapped[..]) + StoreAll(h, native[..]);
    }
    file := file + strings;
  }

  // ----- reading

  function WordAt(h: Host, file: seq<Byte>, p: nat): (w: nat)
    requires p + 4 <= |file|
    ensures w < LIMIT
  {
    Fetch(h, file[p..p + 4])
  }

  predicate HasMagic(h: Host, file: seq<Byte>) {
    |file| >= 12 && (WordAt(h, file, 0) == MAGIC || WordAt(h, file, 0) == Swap(MAGIC))
  }

  /** Any host knows a catalog by its first four bytes, in either order. */
  lemma MagicBytes(h: Host, file: seq<Byte>)
    ensures HasMagic(h, file) <==>
              |file| >= 12 && (file[..4] == [0xde, 0x08, 0x04, 0x96] || file[..4] == [0x96, 0x04, 0x08, 0xde])
  {
    hide Swap;
    if |file| >= 12 {
      var b := file[..4];
      assert b == [b[0], b[1], b[2], b[3]] && file[0..4] == b;
      MagicIs(b[0], b[1], b[2], b[3]);
      MagicIs(b[3], b[2], b[1], b[0]);
    }
  }

  lemma MagicIs(a: Byte, b: Byte, c: Byte, d: Byte)
    ensures Number(a, b, c, d) == MAGIC <==> [a, b, c, d] == [0xde, 0x08, 0x04, 0x96]
    ensures Number(a, b, c, d) == Swap(MAGIC) <==> [a, b, c, d] == [0x96, 0x04, 0x08, 0xde]
  {
    DigitsNumber(a, b, c, d);
    DigitsNumber(0xde, 0x08, 0x04, 0x96);
    DigitsNumber(0x96, 0x04, 0x08, 0xde);
    assert Number(0xde, 0x08, 0x04, 0x96) == MAGIC;
    assert Swap(MAGIC) == Number(0x96, 0x04, 0x08, 0xde);
    hide Digit, Number, Swap;
  }

  /** A header field, swapped if the magic number says so. */
  function Field(h: Host, file: seq<Byte>, p: nat): nat
    requires |file| >= 12 && p <= 8
  {
    if WordAt(h, file, 0) == MAGIC then WordAt(h, file, p) else Swap(WordAt(h, file, p))
  }

  /** The number of slots of a table. */
  function Area(size: nat, depth: nat): nat { size * depth }

  function TabSize(h: Host, file: seq<Byte>): nat
    requires |file| >= 12
  {
    3 * Area(Field(h, file, 4), Field(h, file, 8))
  }

  /** Where the table in the reader's own byte order starts. */
  function Base(h: Host, tab: nat): nat {
    if h.Little? then 12 else 12 + 4 * tab
  }

  function Table(h: Host, file: seq<Byte>, base: nat, tab: nat): (r: seq<nat>)
    requires base + 4 * tab <= |file|
    ensures |r| == tab && forall i :: 0 <= i < tab ==> r[i] == WordAt(h, file, base + 4 * i)
  {
    seq(tab, i requires 0 <= i < tab => WordAt(h, file, base + 4 * i))
  }

  /** The largest string offset of the first n slots. */
  function Largest(words: seq<nat>, n: nat): nat
    requires 3 * n <= |words|
  {
    if n == 0 then 0 else
      var m := Largest(words, n - 1);
      if words[3 * n - 1] > m then words[3 * n - 1] else m
  }

  datatype Opened =
    | Opened(catalog: Catalog)
    | Invalid                    // rejected by a check
    | OutOfBounds                // a read beyond the end of the file

  /** The table lies within the file. */
  ghost predicate TableInside(h: Host, file: seq<Byte>) {
    HasMagic(h, file) && (TabSize(h, file) == 0 || Base(h, TabSize(h, file)) + 4 * TabSize(h, file) <= |file|)
  }

  ghost function ReadTable(h: Host, file: seq<Byte>): (r: seq<nat>)
    requires TableInside(h, file)
    ensures |r| == TabSize(h, file)
  {
    if TabSize(h, file) == 0 then [] else Table(h, file, Base(h, TabSize(h, file)), TabSize(h, file))
  }

  ghost function MaxOffset(h: Host, file: seq<Byte>): nat
    requires TableInside(h, file)
  {
    Largest(ReadTable(h, file), Area(Field(h, file, 4), Field(h, file, 8)))
  }

  /** The file is longer than the size check asks for. */
  ghost predicate LongEnough(h: Host, file: seq<Byte>)
    requires TableInside(h, file)
  {
    |file| > 12 + 2 * TabSize(h, file) + MaxOffset(h, file)
  }

  /** It asks for two bytes of the eight that each of the three words of a slot has. */
  lemma AsksFor(h: Host, file: seq<Byte>)
    requires TableInside(h, file)
    ensures LongEnough(h, file) <==> |file| - 12 > 6 * Area(Field(h, file, 4), Field(h, file, 8)) + MaxOffset(h, file)
  {
    hide Area, Field, MaxOffset;
  }

  /** Where the last string starts. */
  ghost function LastString(h: Host, file: seq<Byte>): nat
    requires TableInside(h, file)
  {
    12 + 8 * TabSize(h, file) + MaxOffset(h, file)
  }

  /** The last string ends within the file. */
  ghost predicate Ends(file: seq<Byte>, p: nat) {
    exists q :: p <= q < |file| && file[q] == 0
  }

  /** What the reader finds in a file that passes. */
  ghost predicate Describes(h: Host, file: seq<Byte>, c: Catalog)
    requires TableInside(h, file)
  {
    && c.size == Field(h, file, 4) && c.depth == Field(h, file, 8) && c.words == ReadTable(h, file)
    && 12 + 8 * TabSize(h, file) <= |file| && c.strings == file[12 + 8 * TabSize(h, file)..]
  }

  /** The scan for the largest offset: the table is read before the file size is checked. */
  method ScanTable(h: Host, file: seq<Byte>, base: nat, slots: nat) returns (max: Option<nat>)
    ensures max.Some? <==> slots == 0 || base + 12 * slots <= |file|
    ensures max.Some? && slots > 0 ==> max.value == Largest(Table(h, file, base, 3 * slots), slots)
    ensures max.Some? && slots == 0 ==> max.value == 0
  {
    hide WordAt;
    var best, cnt := 0, 2;
    ghost var i := 0;
    while cnt < 3 * slots
      invariant 0 <= i <= slots && cnt == 3 * i + 2 && (i > 0 ==> base + 12 * i <= |file|)
      invariant best == if i == 0 then 0 else Largest(Table(h, file, base, 3 * i), i)
    {
      if base + 4 * cnt + 4 > |file| {
        return None;
      }
      var w := WordAt(h, file, base + 4 * cnt);
      LargestPrefix(h, file, base, i);
      if w > best {
        best := w;
      }
      cnt, i := cnt + 3, i + 1;
    }
    return Some(best);
  }

  lemma LargestPrefix(h: Host, file: seq<Byte>, base: nat, i: nat)
    requires base + 12 * (i + 1) <= |file|
    ensures var m := if i == 0 then 0 else Largest(Table(h, file, base, 3 * i), i);
            var w := WordAt(h, file, base + 4 * (3 * i + 2));
            Largest(Table(h, file, base, 3 * (i + 1)), i + 1) == if w > m then w else m
  {
    LargestSame(Table(h, file, base, 3 * i), Table(h, file, base, 3 * (i + 1)), i);
  }

  lemma {:induction false} LargestSame(a: seq<nat>, b: seq<nat>, n: nat)
    requires 3 * n <= |a| <= |b| && forall i :: 0 <= i < |a| ==> a[i] == b[i]
    ensures Largest(a, n) == Largest(b, n)
  {
    if n > 0 {
      LargestSame(a, b, n - 1);
    }
  }

  /** The scan for the terminator of the last string, with its own bound. */
  method ScanString(file: seq<Byte>, start: nat, bound: nat) returns (r: Option<bool>)
    requires bound > 0 && (start <= |file| ==> bound >= |file| - start)
    ensures r == Some(true) <==> Ends(file, start)
    ensures r == Some(false) <==> !Ends(file, start) && start < |file| && bound == |file| - start
  {
    var p, left := start, bound;
    while true
      invariant start <= p && left == bound - (p - start) && left > 0
      invariant forall q :: start <= q < p ==> q < |file| && file[q] != 0
      decreases left
    {
      if p >= |file| {
        return None;
      }
      if file[p] == 0 {
        return Some(true);
      }
      left := left - 1;
      if left == 0 {
        return Some(false);
      }
      p := p + 1;
    }
  }

  /** The file passes all checks, and no check reads beyond its end. */
  ghost predicate Openable(h: Host, file: seq<Byte>) {
    TableInside(h, file) && LongEnough(h, file) && Ends(file, LastString(h, file))
  }

  /**
   A file is opened exactly when it has the magic number, its table lies within the file, it passes
   the size check and its last string ends within the file.  It is read beyond its end exactly when
   its table does not lie within the file, or it passes the size check but its last string runs off
   the end.
   */
  method Open(h: Host, file: seq<Byte>) returns (r: Opened)
    ensures r.Opened? <==> Openable(h, file)
    ensures r.Opened? ==> Describes(h, file, r.catalog)
    ensures r.OutOfBounds? <==> HasMagic(h, file) && (TableInside(h, file) ==>
              LongEnough(h, file) && !Ends(file, LastString(h, file)) && !(TabSize(h, file) == 0 && |file| > 12))
  {
    hide WordAt, Swap, Largest, Field, MaxOffset, ReadTable, Ends;
    if !HasMagic(h, file) {
      return Invalid;
    }
    hide HasMagic;
    var size, depth := Field(h, file, 4), Field(h, file, 8);
    var tab := 3 * size * depth;
    TabIs(size, depth);
    var max := ScanTable(h, file, Base(h, tab), size * depth);
    if max.None? {
      return OutOfBounds;
    }
    MaxOffsetIs(h, file);
    if |file| <= 12 + 2 * tab + max.value {
      return Invalid;
    }
    var ok := ScanString(file, 12 + 8 * tab + max.value, |file| - 12 + 2 * tab + max.value);
    match ok
    case None => return OutOfBounds;
    case Some(false) => return Invalid;
    case Some(true) =>
      EndsInside(file, 12 + 8 * tab + max.value);
      var words := if tab == 0 then [] else Table(h, file, Base(h, tab), tab);
      return Opened(Catalog(size, depth, words, file[12 + 8 * tab..]));
  }

  lemma TabIs(size: nat, depth: nat)
    ensures 3 * size * depth == 3 * (size * depth)
  {}

  lemma EndsInside(file: seq<Byte>, p: nat)
    requires Ends(file, p)
    ensures p < |file|
  {}

  /** The offset computed by the scan of the table, and the table itself. */
  lemma MaxOffsetIs(h: Host, file: seq<Byte>)
    requires TableInside(h, file)
    ensures var tab := TabSize(h, file);
            if tab == 0 then MaxOffset(h, file) == 0 && ReadTable(h, file) == []
            else
              ReadTable(h, file) == Table(h, file, Base(h, tab), tab) &&
              MaxOffset(h, file) == Largest(Table(h, file, Base(h, tab), tab), tab / 3)
  {
    hide Field;
  }

  /** In every file that is opened, every string that the table mentions ends within the file. */
  lemma StringsEnd(h: Host, file: seq<Byte>, c: Catalog, n: nat)
    requires TableInside(h, file) && Ends(file, LastString(h, file)) && Describes(h, file, c) && n < c.size * c.depth
    ensures Ends(c.strings, c.words[3 * n + 2])
  {
    hide Field, ReadTable, TableInside, Largest, Ends;
    LargestAtLeast(c.words, c.size * c.depth, n);
    EndsAfter(file, 12 + 8 * TabSize(h, file), Largest(c.words, c.size * c.depth), c.words[3 * n + 2]);
  }

  lemma EndsAfter(file: seq<Byte>, start: nat, last: nat, p: nat)
    requires Ends(file, start + last) && p <= last && start <= |file|
    ensures Ends(file[start..], p)
  {
    var q :| start + last <= q < |file| && file[q] == 0;
    assert file[start..][q - start] == 0;
  }

  lemma {:induction false} LargestAtLeast(words: seq<nat>, n: nat, i: nat)
    requires 3 * n <= |words| && i < n
    ensures words[3 * i + 2] <= Largest(words, n)
  {
    if i < n - 1 {
      LargestAtLeast(words, n - 1, i);
    }
  }

  lemma {:induction false} LargestBelow(words: seq<nat>, n: nat, bound: nat)
    requires 3 * n <= |words| && bound > 0 && forall i :: 0 <= i < n ==> words[3 * i + 2] < bound
    ensures Largest(words, n) < bound
  {
    if n > 0 {
      LargestBelow(words, n - 1, bound);
      assert words[3 * (n - 1) + 2] < bound;
    }
  }

  lemma DescribedShape(h: Host, file: seq<Byte>, c: Catalog)
    requires TableInside(h, file) && Describes(h, file, c)
    ensures |c.words| == 3 * c.size * c.depth && c.size == Field(h, file, 4) && c.depth == Field(h, file, 8)
  {
    hide Field, ReadTable, HasMagic;
    TabIs(c.size, c.depth);
  }

  /**
   catopen and catgets on any file: an opened catalog is the one in the file, and it answers if and
   only if both header fields are positive; the answer is the string of the first matching slot of
   its table, or the default.
   */
  method Ask(h: Host, file: seq<Byte>, group: int, message: int, dflt: seq<Byte>) returns (o: Opened, r: Reply)
    ensures o.Opened? <==> Openable(h, file)
    ensures o.Opened? && group >= 0 && message >= 0 ==> (r.Reply? <==> Field(h, file, 4) > 0 && Field(h, file, 8) > 0)
    ensures !o.Opened? || group < 0 || message < 0 ==> r == Reply(dflt)
    ensures o.Opened? ==> Describes(h, file, o.catalog)
    ensures o.Opened? && group >= 0 && message >= 0 && r.Reply? ==>
              Usable(o.catalog) && Answers(o.catalog, group + 1, message, dflt, r.text)
  {
    hide Field, TableInside, LongEnough, Ends, LastString, Describes, HasMagic, TabSize, Answers;
    o := Open(h, file);
    if o.Opened? {
      DescribedShape(h, file, o.catalog);
      r := Catgets(Some(o.catalog), group, message, dflt);
    } else {
      r := Catgets(None, group, message, dflt);
    }
  }

  /** A file without planes that is opened all the same. */
  lemma OddFile(h: Host, h': Host, size: nat)
    requires size < LIMIT
    ensures var file := Image(h, Catalog(size, 0, [], [0]));
            Openable(h', file) && Field(h', file, 4) == size && Field(h', file, 8) == 0
  {
    var c := Catalog(size, 0, [], [0]);
    var file := Image(h, c);
    ImageHeader(h, h', c);
    ImageLength(h, c);
    hide Field, HasMagic, Image;
    assert TabSize(h', file) == 0;
    assert file[12..][0] == 0;
  }

  // ----- writing and reading back

  lemma ImageSlice(h: Host, c: Catalog, p: nat, n: nat)
    requires p + n <= 12
    ensures Image(h, c)[p..p + n] == Header(h, c)[p..p + n]
  {
    hide Header, StoreAll;
  }

  lemma ImageField(h: Host, h': Host, c: Catalog, k: nat)
    requires c.size < LIMIT && c.depth < LIMIT && k < 3
    ensures var w := if k == 0 then MAGIC else if k == 1 then c.size else c.depth;
            WordAt(h', Image(h, c), 4 * k) == if h == h' then w else Swap(w)
  {
    hide Store, Swap, Fetch, Image;
    var w := if k == 0 then MAGIC else if k == 1 then c.size else c.depth;
    ImageSlice(h, c, 4 * k, 4);
    assert Header(h, c)[4 * k..4 * k + 4] == Store(h, w);
    FetchStore(h, h', w);
  }

  lemma MagicDiffers()
    ensures MAGIC != Swap(MAGIC)
  {}

  lemma ImageHeader(h: Host, h': Host, c: Catalog)
    requires c.size < LIMIT && c.depth < LIMIT
    ensures HasMagic(h', Image(h, c)) && Field(h', Image(h, c), 4) == c.size && Field(h', Image(h, c), 8) == c.depth
  {
    hide Swap, WordAt, Header, StoreAll;
    MagicDiffers();
    ImageField(h, h', c, 0);
    ImageField(h, h', c, 1);
    ImageField(h, h', c, 2);
    SwapTwice(c.size);
    SwapTwice(c.depth);
  }

  lemma ImageWord(h: Host, h': Host, c: Catalog, i: nat)
    requires i < |c.words| && c.words[i] < LIMIT
    ensures Base(h', |c.words|) + 4 * i + 4 <= |Image(h, c)|
    ensures WordAt(h', Image(h, c), Base(h', |c.words|) + 4 * i) == c.words[i]
  {
    hide Header, Store, StoreAll, Fetch;
    var file, p := Image(h, c), Base(h', |c.words|) + 4 * i;
    assert file[p..p + 4] == StoreAll(h', c.words)[4 * i..4 * i + 4];
    StoreAllAt(h', c.words, i);
    FetchStore(h', h', c.words[i]);
  }

  /** A file written on either kind of host, seen from either kind of host. */
  lemma ImageReads(h: Host, h': Host, c: Catalog)
    requires Usable(c) && c.size < LIMIT && c.depth < LIMIT && AllWords(c.words)
    ensures TableInside(h', Image(h, c)) && TabSize(h', Image(h, c)) == |c.words| && Describes(h', Image(h, c), c)
    ensures |Image(h, c)| == 12 + 8 * |c.words| + |c.strings|
  {
    hide Header, StoreAll, Field, HasMagic, WordAt, Image, ReadTable;
    ImageHeader(h, h', c);
    TabIs(c.size, c.depth);
    ImageLength(h, c);
    ImageTable(h, h', c);
  }

  lemma ImageTable(h: Host, h': Host, c: Catalog)
    requires TableInside(h', Image(h, c)) && TabSize(h', Image(h, c)) == |c.words| && AllWords(c.words)
    ensures ReadTable(h', Image(h, c)) == c.words
  {
    hide Header, StoreAll, Field, HasMagic, WordAt, Image, TabSize;
    var r := ReadTable(h', Image(h, c));
    forall i | 0 <= i < |r|
      ensures r[i] == c.words[i]
    {
      ImageWord(h, h', c, i);
    }
  }

  lemma ImageLength(h: Host, c: Catalog)
    ensures |Image(h, c)| == 12 + 8 * |c.words| + |c.strings| && Image(h, c)[12 + 8 * |c.words|..] == c.strings
  {
    hide Header, StoreAll;
  }

  // ----- what 32-bit words hold

  /** The words as the 32-bit arrays of write_out hold them. */
  function Truncate(words: seq<nat>): (r: seq<nat>)
    ensures |r| == |words| && forall i :: 0 <= i < |words| ==> r[i] == words[i] % LIMIT
  {
    seq(|words|, i requires 0 <= i < |words| => words[i] % LIMIT)
  }

  function Truncated(c: Catalog): Catalog {
    c.(words := Truncate(c.words))
  }

  lemma TruncateDigits(w: nat)
    ensures forall i :: 0 <= i < 4 ==> Digit(w % LIMIT, i) == Digit(w, i)
  {
    var q, r := w / LIMIT, w % LIMIT;
    assert w == 256 * (0x1000000 * q) + r;
    assert w / 256 == 0x1000000 * q + r / 256;
    assert w / 256 / 256 == 0x10000 * q + r / 256 / 256;
    assert w / 256 / 256 / 256 == 256 * q + r / 256 / 256 / 256;
  }

  lemma StoreTruncates(h: Host, w: nat)
    ensures Store(h, w % LIMIT) == Store(h, w)
  {
    hide Digit;
    TruncateDigits(w);
  }

  lemma {:induction false} StoreAllTruncates(h: Host, ws: seq<nat>)
    ensures StoreAll(h, Truncate(ws)) == StoreAll(h, ws)
  {
    hide Store;
    if ws != [] {
      StoreAllTruncates(h, ws[..|ws| - 1]);
      StoreTruncates(h, ws[|ws| - 1]);
      assert Truncate(ws)[..|ws| - 1] == Truncate(ws[..|ws| - 1]);
    }
  }

  /** What is cut off makes no difference to the file. */
  lemma ImageTruncates(h: Host, c: Catalog)
    ensures Image(h, Truncated(c)) == Image(h, c)
  {
    hide StoreAll, Store;
    StoreAllTruncates(Little, c.words);
    StoreAllTruncates(Big, c.words);
  }

  /** The numbers fit their 32-bit words, as every int of the source does. */
  ghost predicate Ints(es: seq<Entry>) {
    forall i :: 0 <= i < |es| ==> es[i].group < LIMIT && es[i].msg < LIMIT
  }

  /** The numbers and the offsets of the strings fit their 32-bit words. */
  ghost predicate Fits(es: seq<Entry>) {
    |Pool(es)| <= LIMIT && Ints(es)
  }

  lemma OffsetsInside(c: Catalog, es: seq<Entry>, n: nat)
    requires Serves(c, es) && n < c.size * c.depth
    ensures 3 * n + 3 <= |c.words| && c.words[3 * n + 2] <= |Pool(es)| && (es != [] ==> c.words[3 * n + 2] < |Pool(es)|)
    ensures Ints(es) ==> c.words[3 * n] < LIMIT && c.words[3 * n + 1] < LIMIT
    ensures Fits(es) ==> c.words[3 * n + 2] < LIMIT
  {
    var i := SlotIs(es, c.size, c.depth, c.words, n);
    if i.Some? {
      PoolText(es, i.value);
    } else if es != [] {
      PoolText(es, 0);
    }
  }

  lemma NothingTruncated(c: Catalog, es: seq<Entry>)
    requires Serves(c, es) && Fits(es)
    ensures Truncated(c) == c
  {
    hide Serves, Fits;
    forall i | 0 <= i < |c.words|
      ensures c.words[i] % LIMIT == c.words[i]
    {
      TabIs(c.size, c.depth);
      ServesLength(c, es);
      FitsInts(es);
      OffsetsInside(c, es, i / 3);
      assert i == 3 * (i / 3) || i == 3 * (i / 3) + 1 || i == 3 * (i / 3) + 2;
      Unchanged(c.words[i]);
    }
  }

  lemma FitsInts(es: seq<Entry>)
    requires Fits(es)
    ensures Ints(es)
  {}

  lemma Unchanged(w: nat)
    requires w < LIMIT
    ensures w % LIMIT == w
  {}

  lemma ServesLength(c: Catalog, es: seq<Entry>)
    requires Serves(c, es)
    ensures |c.words| == 3 * c.size * c.depth && Usable(c) && c.strings == Pool(es)
  {}

  /**
   Every non-empty catalog is accepted and yields the same strings and the same table, as far as
   its words hold it; the empty one is read beyond its end.
   */
  lemma Readable(h: Host, h': Host, c: Catalog, es: seq<Entry>)
    requires Serves(c, es) && c.size < LIMIT && c.depth < LIMIT
    ensures var file := Image(h, c);
            && TableInside(h', file) && LongEnough(h', file) && Describes(h', file, Truncated(c))
            && TabSize(h', file) > 0 && (Ends(file, LastString(h', file)) <==> es != [])
  {
    hide Serves, Fits, Field, Largest, Image, HasMagic, ReadTable, Ints;
    ServesLength(c, es);
    var file, d := Image(h, c), Truncated(c);
    ImageTruncates(h, c);
    ImageReads(h, h', d);
    TabIs(c.size, c.depth);
    assert MaxOffset(h', file) == Largest(d.words, c.size * c.depth);
    forall n | 0 <= n < c.size * c.depth
      ensures d.words[3 * n + 2] < if es == [] then 1 else |Pool(es)|
    {
      OffsetsInside(c, es, n);
      AtMost(c.words[3 * n + 2]);
    }
    PoolEnd(es);
    LargestBelow(d.words, c.size * c.depth, if es == [] then 1 else |Pool(es)|);
    if es != [] {
      assert file[12 + 8 * |c.words|..][|Pool(es)| - 1] == file[|file| - 1];
    }
    PositiveProduct(c.size, c.depth);
  }

  lemma AtMost(w: nat)
    ensures w % LIMIT <= w
  {}

  lemma PositiveProduct(a: nat, b: nat)
    requires a > 0 && b > 0
    ensures a * b > 0
  {}

  lemma PoolEnd(es: seq<Entry>)
    ensures es == [] ==> Pool(es) == []
    ensures es != [] ==> |Pool(es)| > 0 && Pool(es)[|Pool(es)| - 1] == 0
  {}

  // ----- lookups in what was read

  /** What catgets finds for message i: the string at the offset that its word holds. */
  ghost function StoredText(es: seq<Entry>, i: nat): Text
    requires i < |es|
  {
    CString(Pool(es), |Pool(es[..i])| % LIMIT)
  }

  /** It is the text of the message, if its string starts below 2^32. */
  lemma StoredIsText(es: seq<Entry>, i: nat)
    requires i < |es| && |Pool(es[..i])| < LIMIT
    ensures StoredText(es, i) == es[i].text
  {
    PoolText(es, i);
    Unchanged(|Pool(es[..i])|);
  }

  /** A string that starts 2^32 bytes after another one is lost: the other one is found in its place. */
  lemma StoredIsOther(es: seq<Entry>, i: nat, j: nat)
    requires i < |es| && j < |es| && |Pool(es[..i])| == |Pool(es[..j])| + LIMIT && |Pool(es[..j])| < LIMIT
    ensures StoredText(es, i) == es[j].text
  {
    StoredIsText(es, j);
  }

  lemma TruncatedMatch(c: Catalog, es: seq<Entry>, group: nat, msg: nat, k: nat)
    requires Serves(c, es) && Ints(es) && k < c.depth
    ensures Usable(Truncated(c)) && (Match(Truncated(c), group, msg, k) <==> Match(c, group, msg, k))
  {
    hide Filled, Room, Numbered, Distinct, Pool;
    var b := (group * msg) % c.size;
    var n := b + c.size * k;
    AtBounds(c.size, c.depth, b, k);
    TabIs(c.size, c.depth);
    OffsetsInside(c, es, n);
    Unchanged(c.words[3 * n]);
    Unchanged(c.words[3 * n + 1]);
  }

  /** The answers that the words of a written catalog give. */
  lemma StoredAnswer(c: Catalog, es: seq<Entry>, group: nat, msg: nat, dflt: seq<Byte>, r: seq<Byte>)
    requires Serves(c, es) && Ints(es) && group >= 1
    requires Usable(Truncated(c)) && Answers(Truncated(c), group, msg, dflt, r)
    ensures forall i :: 0 <= i < |es| && es[i].group == group && es[i].msg == msg ==> r == StoredText(es, i)
    ensures (forall i :: 0 <= i < |es| ==> !(es[i].group == group && es[i].msg == msg)) ==> r == dflt
  {
    hide At, Filled, Room, CString, Pool, Match, Ints, Numbered;
    var d := Truncated(c);
    if k :| 0 <= k < d.depth && Match(d, group, msg, k) {
      var first := FirstMatch(d, group, msg, k);
      TruncatedMatch(c, es, group, msg, first);
      var i := MatchIsEntry(c, es, group, msg, first);
      MatchInside(c, group, msg, first);
      assert r == StoredText(es, i);
      assert forall j :: 0 <= j < |es| && j != i ==> !SameKey(es[i], es[j]) || !SameKey(es[j], es[i]);
    } else {
      forall i | 0 <= i < |es| && es[i].group == group && es[i].msg == msg
        ensures false
      {
        EntryMatches(c, es, i);
        TruncatedMatch(c, es, group, msg, Level(es, c.size, i));
      }
    }
  }

  lemma MatchInside(c: Catalog, group: nat, msg: nat, k: nat)
    requires Usable(c) && Match(c, group, msg, k)
    ensures At(c.size, (group * msg) % c.size, k) + 3 <= |c.words|
  {
    hide At;
  }
}
