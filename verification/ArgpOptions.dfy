/**
 Trees of option tables (glibc-2.27/argp/argp.h), and what they declare: which options a parser accepts, in which group,
 and in which order.
 */
module ArgpOptions {
  import opened Optional

  /** An entry of an option table, without the entry that ends it. */
  datatype Opt = Opt(name: Option<string>, key: int, arg: bool, optional: bool, hidden: bool, alias: bool, doc: bool)

  /** `options` is missing when the pointer is null. */
  datatype Argp = Argp(options: Option<seq<Opt>>, parser: bool, children: seq<Argp>)

  function Opts(a: Argp): seq<Opt> {
    if a.options.Some? then a.options.value else []
  }

  predicate HasGroup(a: Argp) {
    a.options.Some? || a.parser
  }

  /** The groups of a tree, in preorder. */
  function Groups(a: Argp): seq<Argp>
    decreases a
  {
    (if HasGroup(a) then [a] else []) + GroupsAll(a.children)
  }

  function GroupsAll(cs: seq<Argp>): seq<Argp>
    decreases cs
  {
    if cs == [] then [] else GroupsAll(cs[..|cs| - 1]) + Groups(cs[|cs| - 1])
  }

  // ----- one table

  /** The entry that an entry takes its flags and its argument from: the last one before it that is not an alias. */
  function Real(opts: seq<Opt>, i: nat): (r: nat)
    requires i < |opts|
    ensures r <= i
  {
    if !opts[i].alias || i == 0 then i else Real(opts, i - 1)
  }

  /** __option_is_short: the key is a character that can be printed. */
  predicate IsShort(o: Opt): (r: bool)
    ensures r <==> !o.doc && ' ' as int <= o.key <= '~' as int
  {
    !o.doc && 32 <= o.key <= 126
  }

  /** The entry is an option, and not only documentation. */
  predicate Active(opts: seq<Opt>, i: nat)
    requires i < |opts|
  {
    !opts[Real(opts, i)].doc
  }

  function KeyOf(opts: seq<Opt>, i: nat): int
    requires i < |opts|
  {
    if opts[i].key != 0 then opts[i].key else opts[Real(opts, i)].key
  }

  predicate DeclaresShort(opts: seq<Opt>, i: nat, ch: int)
    requires i < |opts|
  {
    Active(opts, i) && IsShort(opts[i]) && opts[i].key == ch
  }

  predicate DeclaresLong(opts: seq<Opt>, i: nat, name: string)
    requires i < |opts|
  {
    Active(opts, i) && opts[i].name == Some(name)
  }

  // ----- what getopt gets

  const COLON := ':' as int

  /** The characters of one entry in the short option string. */
  function Chunk(opts: seq<Opt>, i: nat): (r: seq<int>)
    requires i < |opts|
    ensures |r| <= 3
  {
    if !(Active(opts, i) && IsShort(opts[i])) then [] else
      var main := opts[Real(opts, i)];
      [opts[i].key] + if !main.arg then [] else if main.optional then [COLON, COLON] else [COLON]
  }

  function ShortText(opts: seq<Opt>, n: nat): seq<int>
    requires n <= |opts|
  {
    if n == 0 then [] else ShortText(opts, n - 1) + Chunk(opts, n - 1)
  }

  /** The short options of the first groups. */
  function ShortOf(gs: seq<Argp>): seq<int> {
    if gs == [] then [] else ShortOf(gs[..|gs| - 1]) + ShortText(Opts(gs[|gs| - 1]), |Opts(gs[|gs| - 1])|)
  }

  datatype HasArg = NoArgument | RequiredArgument | OptionalArgument

  function ArgOf(o: Opt): HasArg {
    if !o.arg then NoArgument else if o.optional then OptionalArgument else RequiredArgument
  }

  /** An entry of the long option array; the last one has no name. */
  datatype Long = Long(name: Option<string>, hasArg: HasArg, val: int)

  // ----- packed keys

  const USER_LIMIT := 0x1000000
  const INT_LIMIT := 0x1_0000_0000

  /** The value of a 32-bit int. */
  function AsInt(x: int): (r: int)
    ensures -0x8000_0000 <= r < 0x8000_0000
  {
    var m := x % INT_LIMIT;
    if m < 0x8000_0000 then m else m - INT_LIMIT
  }

  /** The group number and the user's key in one int. */
  function Pack(g: nat, key: int): (r: int)
    ensures -0x8000_0000 <= r < 0x8000_0000
  {
    AsInt(key % USER_LIMIT + (g + 1) * USER_LIMIT)
  }

  /** The high byte, with its sign. */
  function GroupKey(val: int): int {
    val / USER_LIMIT
  }

  /** Shifted up and down again: the low bits, with their sign. */
  function UserKey(val: int): int {
    AsInt(val * 256) / 256
  }

  lemma PackGroup(g: nat, key: int)
    ensures GroupKey(Pack(g, key)) == if (g + 1) % 256 < 128 then (g + 1) % 256 else (g + 1) % 256 - 256
  {
    hide AsInt;
    var low, b, q := key % USER_LIMIT, (g + 1) % 256, (g + 1) / 256;
    assert g + 1 == 256 * q + b;
    assert low + (g + 1) * USER_LIMIT == (low + b * USER_LIMIT) + q * INT_LIMIT;
    AsIntWraps(low + b * USER_LIMIT, q);
    HighByte(low, b);
  }

  lemma AsIntWraps(y: nat, q: nat)
    requires y < INT_LIMIT
    ensures AsInt(y + q * INT_LIMIT) == AsInt(y)
  {
    assert (y + q * INT_LIMIT) % INT_LIMIT == y;
  }

  lemma HighByte(low: nat, b: nat)
    requires low < USER_LIMIT && b < 256
    ensures AsInt(low + b * USER_LIMIT) / USER_LIMIT == if b < 128 then b else b - 256
  {
    assert AsInt(low + b * USER_LIMIT) == low + (if b < 128 then b else b - 256) * USER_LIMIT;
  }

  lemma PackUser(g: nat, key: int)
    ensures UserKey(Pack(g, key)) == if key % USER_LIMIT < 0x800000 then key % USER_LIMIT
      else key % USER_LIMIT - USER_LIMIT
  {
    var low := key % USER_LIMIT;
    var x := low + (g + 1) * USER_LIMIT;
    var m := (x - AsInt(x)) / INT_LIMIT;
    assert x - AsInt(x) == m * INT_LIMIT;
    assert AsInt(x) * 256 == low * 256 + (g + 1 - 256 * m) * INT_LIMIT;
    assert (AsInt(x) * 256) % INT_LIMIT == low * 256;
  }

  /** A packed value gives back exactly what went in, if and only if there are fewer than 127 groups before it and the
      key fits 24 bits with its sign. */
  lemma PackExact(g: nat, key: int)
    ensures (GroupKey(Pack(g, key)) - 1 == g && UserKey(Pack(g, key)) == key) <==>
      g < 127 && -0x800000 <= key < 0x800000
  {
    PackGroup(g, key);
    PackUser(g, key);
    hide Pack, GroupKey, UserKey;
  }
}
