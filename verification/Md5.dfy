/**
 The streaming MD5 of glibc-2.27/crypt/md5.c: a context with a 128-byte
 staging buffer and a byte count kept in two 32-bit words.  The buffer may hold a whole
 pending block (`buflen == 64`), because only more than 64 staged bytes are flushed.
 */
module Md5 {
  import opened Md5Spec
  import opened Md5Block

  // ----- the length words

  const TWO_32: nat := 0x1_0000_0000
  const TWO_64: nat := 0x1_0000_0000_0000_0000

  /** A 32-bit number as a word. */
  function ToWord(n: nat): Word {
    WordAt(LittleEndian(n, 4), 0)
  }

  function Pow256(n: nat): (p: nat)
    ensures p > 0
  {
    if n == 0 then 1 else 256 * Pow256(n - 1)
  }

  lemma {:induction false} DigitsWrap(v: nat, k: nat, n: nat)
    ensures LittleEndian(v + k * Pow256(n), n) == LittleEndian(v, n)
  {
    hide Pow256;
    if n > 0 {
      var m := k * Pow256(n - 1);
      NextPower(k, n);
      LastDigit(v, m);
      DigitsWrap(v / 256, k, n - 1);
    }
  }

  lemma NextPower(k: nat, n: nat)
    requires n > 0
    ensures k * Pow256(n) == 256 * (k * Pow256(n - 1))
  {
    var p := Pow256(n - 1);
    hide Pow256;
    assert k * (256 * p) == 256 * (k * p);
  }

  lemma LastDigit(v: nat, m: nat)
    ensures (v + 256 * m) % 256 == v % 256 && (v + 256 * m) / 256 == v / 256 + m
  {}

  /** v with its n low-order bytes dropped. */
  function DropDigits(v: nat, n: nat): nat {
    if n == 0 then v else DropDigits(v / 256, n - 1)
  }

  lemma {:induction false} DigitsSplit(v: nat, m: nat, n: nat)
    ensures LittleEndian(v, m + n) == LittleEndian(v, m) + LittleEndian(DropDigits(v, m), n)
  {
    if m > 0 {
      DigitsSplit(v / 256, m - 1, n);
    }
  }

  lemma WordDigits(v: nat)
    ensures Pow256(4) == TWO_32 && DropDigits(v, 4) == v / TWO_32
  {
    assert Pow256(1) == 256 && Pow256(2) == 65536 && Pow256(3) == 16777216;
    assert v / 256 / 256 / 256 / 256 == v / TWO_32;
    assert DropDigits(v / 256 / 256 / 256, 1) == v / 256 / 256 / 256 / 256;
    assert DropDigits(v / 256 / 256, 2) == v / 256 / 256 / 256 / 256;
    assert DropDigits(v / 256, 3) == v / 256 / 256 / 256 / 256;
  }

  lemma LengthSplit(n: nat, lo: nat, hi: nat)
    requires lo < TWO_32 && hi < TWO_32 && hi * TWO_32 + lo == n % TWO_64
    ensures n * 8 == lo * 8 % TWO_32 + n * 8 / TWO_32 * TWO_32
    ensures n * 8 / TWO_32 == hi * 8 % TWO_32 + lo / 0x2000_0000 + (n / TWO_64 * 8 + hi * 8 / TWO_32) * TWO_32
  {
    var q := n / TWO_64;
    assert n * 8 == (q * 8 * TWO_32 + hi * 8) * TWO_32 + lo * 8;
  }

  /** The two stored words are the bit length modulo 2^64, whatever the byte count wrapped to. */
  lemma LengthWords(n: nat, lo: nat, hi: nat)
    requires lo < TWO_32 && hi < TWO_32 && hi * TWO_32 + lo == n % TWO_64
    ensures LittleEndian(lo * 8 % TWO_32, 4) + LittleEndian(hi * 8 % TWO_32 + lo / 0x2000_0000, 4)
      == LittleEndian(n * 8, 8)
  {
    hide LittleEndian, DropDigits, Pow256;
    LengthSplit(n, lo, hi);
    WordDigits(n * 8);
    DigitsSplit(n * 8, 4, 4);
    DigitsWrap(lo * 8 % TWO_32, n * 8 / TWO_32, 4);
    DigitsWrap(hi * 8 % TWO_32 + lo / 0x2000_0000, n / TWO_64 * 8 + hi * 8 / TWO_32, 4);
  }

  lemma WordBytesJoin(b0: Byte, b1: Byte, b2: Byte, b3: Byte)
    ensures WordBytes(Join(b0, b1, b2, b3)) == [b0, b1, b2, b3]
  {
    BytesOfJoin(b0, b1, b2, b3);
    hide Join;
  }

  lemma StoredWord(bigEndian: bool, n: nat)
    ensures HostBytes(bigEndian, FromHost(bigEndian, ToWord(n))) == LittleEndian(n, 4)
  {
    hide Join, HostBytes, FromHost, LittleEndian, WordBytes;
    var s := LittleEndian(n, 4);
    StoreIsWordBytes(bigEndian, ToWord(n));
    WordBytesJoin(s[0], s[1], s[2], s[3]);
  }

  // ----- the context

  /** The bytes the padding is copied from. */
  const FILL_BUF: seq<Byte> := [0x80] + Zeros(63)

  class Context {
    const bigEndian: bool          // host byte order
    const unalignedLoads: bool     // _STRING_ARCH_unaligned
    var a: Word
    var b: Word
    var c: Word
    var d: Word
    var total0: nat
    var total1: nat
    var buflen: nat
    const buffer: array<Byte>

    ghost var message: seq<Byte>   // everything processed since initialisation

    ghost function Regs(): Chain
      reads this`a, this`b, this`c, this`d
    {
      Chain(a, b, c, d)
    }

    /** The two words hold the byte count n modulo 2^64. */
    ghost predicate Counts(n: nat)
      reads this`total0, this`total1
    {
      total0 < TWO_32 && total1 < TWO_32 && total1 * TWO_32 + total0 == n % TWO_64
    }

    /** The context without its staged bytes: `folded` has been compressed and counted. */
    ghost predicate Folded(folded: seq<Byte>)
      reads this
    {
      Hashed(folded) && Counts(|folded|)
    }

    ghost predicate Hashed(folded: seq<Byte>)
      reads this`a, this`b, this`c, this`d
    {
      |folded| % 64 == 0 && Regs() == Fold(INIT, folded)
    }

    /** Compressed blocks and at most 64 staged bytes together are the whole message so far. */
    ghost predicate Valid()
      reads this, buffer
    {
      && buffer.Length == 128
      && buflen <= 64
      && buflen <= |message|
      && Folded(message[..|message| - buflen])
      && buffer[..buflen] == message[|message| - buflen..]
    }

    constructor (bigEndian: bool, unalignedLoads: bool)
      ensures Valid() && message == [] && fresh(buffer)
      ensures this.bigEndian == bigEndian && this.unalignedLoads == unalignedLoads
    {
      this.bigEndian := bigEndian;
      this.unalignedLoads := unalignedLoads;
      a, b, c, d := 0x67452301, 0xefcdab89, 0x98badcfe, 0x10325476;
      total0, total1, buflen := 0, 0, 0;
      buffer := new Byte[128];
      message := [];
    }

    /** memcpy into the staging buffer. */
    method Stage(at: nat, src: seq<Byte>)
      requires at + |src| <= buffer.Length
      modifies buffer
      ensures buffer[..at + |src|] == old(buffer[..at]) + src
      ensures buffer[at + |src|..] == old(buffer[at + |src|..])
    {
      for i := 0 to |src|
        invariant buffer[..at + i] == old(buffer[..at]) + src[..i]
        invariant buffer[at + i..] == old(buffer[at + i..])
      {
        buffer[at + i] := src[i];
      }
    }

    /** The double-word increment of the byte count. */
    method CountBlock(len: nat, ghost n: nat)
      requires Counts(n)
      modifies this`total0, this`total1
      ensures Counts(n + len)
    {
      var low := len % TWO_32;
      CountAdds(total0, total1, n, len);
      total0 := (total0 + low) % TWO_32;
      total1 := (total1 + len / TWO_32 + (if total0 < low then 1 else 0)) % TWO_32;
    }

    /** __md5_process_block: counts and compresses a whole number of blocks. */
    method ProcessBlock(data: seq<Byte>, ghost folded: seq<Byte>, ghost n: nat)
      requires |data| % 64 == 0
      requires Hashed(folded) && Counts(n)
      modifies this`a, this`b, this`c, this`d, this`total0, this`total1
      ensures Hashed(folded + data) && Counts(n + |data|)
    {
      hide Fold, Counts;
      CountBlock(|data|, n);
      a, b, c, d := CompressBlocks(bigEndian, data, a, b, c, d);
      FoldAppend(INIT, folded, data);
    }

    /** First part of md5_process_bytes: fill the staging buffer, flushing it once it holds more than 64 bytes. */
    method TopUp(data: seq<Byte>) returns (add: nat)
      requires Valid() && buflen != 0
      modifies this, buffer
      ensures add <= |data| && Valid() && message == old(message) + data[..add]
      ensures add < |data| ==> buflen == 0
    {
      hide Hashed, Counts;
      var leftOver := buflen;
      add := if 128 - leftOver > |data| then |data| else 128 - leftOver;
      ghost var folded := message[..|message| - buflen];
      Stage(leftOver, data[..add]);
      buflen := buflen + add;
      message := message + data[..add];
      assert buffer[..buflen] == message[|folded|..];
      assert folded == message[..|message| - buflen];
      if buflen > 64 {
        Flush(folded);
      }
    }

    /** More than 64 staged bytes: compress the whole blocks among them and keep the others. */
    method Flush(ghost folded: seq<Byte>)
      requires buffer.Length == 128 && 64 < buflen <= 128 && buflen <= |message|
      requires folded == message[..|message| - buflen] && Folded(folded)
      requires buffer[..buflen] == message[|folded|..]
      modifies this, buffer
      ensures Valid() && message == old(message) && buflen == old(buflen) % 64
    {
      hide Hashed, Counts;
      var full := buflen - buflen % 64;
      ProcessBlock(buffer[..full], folded, |folded|);
      assert folded + buffer[..full] == message[..|folded| + full];
      buflen := buflen % 64;
      Stage(0, buffer[full..full + buflen]);
    }

    /** Unaligned input goes through the staging buffer block by block, all but the last 64 bytes at most. */
    method CopyBlocks(data: seq<Byte>) returns (used: nat)
      requires buffer.Length == 128 && buflen == 0 && Folded(message)
      modifies this, buffer
      ensures used <= |data| && |data| - used <= 64 && buflen == 0
      ensures Folded(message) && message == old(message) + data[..used]
    {
      hide Folded, Hashed, Counts;
      used := 0;
      while |data| - used > 64
        invariant used <= |data| && buflen == 0
        invariant Folded(message) && message == old(message) + data[..used]
      {
        Stage(0, data[used..used + 64]);
        assert buffer[..64] == data[used..used + 64];
        Absorb(buffer[..64]);
        used := used + 64;
        assert data[..used] == data[..used - 64] + data[used - 64..used];
      }
    }

    /** __md5_process_block on input, with nothing staged. */
    method Absorb(data: seq<Byte>)
      requires |data| % 64 == 0 && Folded(message)
      modifies this
      ensures Folded(message) && message == old(message) + data && buflen == old(buflen)
    {
      hide Hashed, Counts;
      ProcessBlock(data, message, |message|);
      message := message + data;
    }

    /** Second part of md5_process_bytes: compress the complete blocks. */
    method TakeBlocks(data: seq<Byte>, addr: nat) returns (used: nat)
      requires Valid() && buflen == 0 && |data| >= 64
      modifies this, buffer
      ensures used <= |data| && |data| - used <= 64
      ensures Valid() && buflen == 0 && message == old(message) + data[..used]
    {
      hide Hashed, Counts;
      assert message[..|message|] == message;
      if !unalignedLoads && addr % 4 != 0 {
        used := CopyBlocks(data);
      } else {
        used := |data| - |data| % 64;
        Absorb(data[..used]);
      }
      assert message[..|message|] == message;
    }

    /** Last part: stage what is left, compressing it at once if it completes a block. */
    method StageRest(data: seq<Byte>)
      requires Valid() && buflen == 0 && 0 < |data| <= 64
      modifies this, buffer
      ensures Valid() && message == old(message) + data
    {
      hide Hashed, Counts;
      var leftOver := buflen;
      ghost var folded := message;
      assert message[..|message|] == message;
      Stage(leftOver, data);
      message := message + data;
      leftOver := leftOver + |data|;
      if leftOver >= 64 {
        assert buffer[..64] == data;
        ProcessBlock(buffer[..64], folded, |folded|);
        leftOver := leftOver - 64;
        Stage(0, buffer[64..64 + leftOver]);
        assert message[..|message|] == message;
      } else {
        assert message[..|folded|] == folded;
      }
      buflen := leftOver;
    }

    /** md5_process_bytes, for input of any length at any address. */
    method ProcessBytes(data: seq<Byte>, addr: nat)
      requires Valid()
      modifies this, buffer
      ensures Valid() && message == old(message) + data
    {
      hide Valid;
      var rest, at := data, addr;
      if buflen != 0 {
        var add := TopUp(rest);
        assert data == data[..add] + data[add..];
        rest, at := rest[add..], at + add;
      }
      ghost var before := message;
      assert before + rest == old(message) + data;
      if |rest| >= 64 {
        var used := TakeBlocks(rest, at);
        assert rest == rest[..used] + rest[used..];
        rest := rest[used..];
      }
      assert message + rest == old(message) + data;
      if |rest| > 0 {
        StageRest(rest);
      }
    }

    /**
     The padding md5_finish_ctx builds behind the staged bytes, which is the one of RFC 1321,
     sections 3.1 and 3.2.
     */
    method PadBuffer(bytes: nat) returns (end: nat)
      requires buffer.Length == 128 && bytes <= 64 && bytes <= |message|
      requires (|message| - bytes) % 64 == 0 && Counts(|message|)
      modifies buffer
      ensures (end == 64 || end == 128) && buffer[..end] == old(buffer[..bytes]) + Padding(|message|)
    {
      hide Padding, FILL_BUF, LittleEndian, Counts;
      var pad := if bytes >= 56 then 64 + 56 - bytes else 56 - bytes;
      PadBytes(|message|, bytes, pad);
      Stage(bytes, FILL_BUF[..pad]);
      StoreLength(bytes + pad);
      end := bytes + pad + 8;
    }

    /** The two words of the bit length, indexed in words. */
    method StoreLength(at: nat)
      requires buffer.Length == 128 && at % 4 == 0 && at + 8 <= 128 && Counts(|message|)
      modifies buffer
      ensures buffer[..at + 8] == old(buffer[..at]) + LittleEndian(|message| * 8, 8)
    {
      hide LittleEndian, HostBytes, FromHost, ToWord;
      LengthWords(|message|, total0, total1);
      hide Counts;
      var lo, hi := total0 * 8 % TWO_32, total1 * 8 % TWO_32 + total0 / 0x2000_0000;
      StoredWord(bigEndian, lo);
      StoredWord(bigEndian, hi);
      assert at / 4 * 4 == at && (at + 4) / 4 * 4 == at + 4;
      Stage(at / 4 * 4, HostBytes(bigEndian, FromHost(bigEndian, ToWord(lo))));
      Stage((at + 4) / 4 * 4, HostBytes(bigEndian, FromHost(bigEndian, ToWord(hi))));
    }

    /** md5_finish_ctx and md5_read_ctx. */
    method Finish() returns (digest: seq<Byte>)
      requires Valid()
      modifies this, buffer
      ensures digest == Digest(old(message))
    {
      hide Padding, Counts, Fold;
      ghost var folded, tail := message[..|message| - buflen], message[|message| - buflen..];
      CountBlock(buflen, |folded|);
      var end := PadBuffer(buflen);
      assert folded + (tail + Padding(|message|)) == message + Padding(|message|);
      ProcessBlock(buffer[..end], folded, |message|);
      digest := Read();
    }

    /** md5_read_ctx. */
    method Read() returns (digest: seq<Byte>)
      ensures digest == Output(Regs())
    {
      StoreIsWordBytes(bigEndian, a);
      StoreIsWordBytes(bigEndian, b);
      StoreIsWordBytes(bigEndian, c);
      StoreIsWordBytes(bigEndian, d);
      hide HostBytes, FromHost, WordBytes;
      digest := HostBytes(bigEndian, FromHost(bigEndian, a)) + HostBytes(bigEndian, FromHost(bigEndian, b))
              + HostBytes(bigEndian, FromHost(bigEndian, c)) + HostBytes(bigEndian, FromHost(bigEndian, d));
    }
  }

  lemma PadBytes(len: nat, bytes: nat, pad: nat)
    requires bytes <= 64 && bytes <= len && (len - bytes) % 64 == 0
    requires pad == if bytes >= 56 then 64 + 56 - bytes else 56 - bytes
    ensures pad <= |FILL_BUF| && Padding(len) == FILL_BUF[..pad] + LittleEndian(len * 8, 8)
  {
    hide LittleEndian;
    StagedTail(len, bytes);
    assert FILL_BUF[..pad] == [0x80] + Zeros(pad - 1);
  }

  lemma StagedTail(len: nat, bytes: nat)
    requires bytes <= 64 && bytes <= len && (len - bytes) % 64 == 0
    ensures len % 64 == if bytes == 64 then 0 else bytes
  {
    var q := (len - bytes) / 64;
    assert len == 64 * q + bytes;
  }

  lemma CountAdds(lo: nat, hi: nat, n: nat, len: nat)
    requires lo < TWO_32 && hi < TWO_32 && hi * TWO_32 + lo == n % TWO_64
    ensures var lo' := (lo + len % TWO_32) % TWO_32;
            var hi' := (hi + len / TWO_32 + (if lo' < len % TWO_32 then 1 else 0)) % TWO_32;
            hi' * TWO_32 + lo' == (n + len) % TWO_64
  {
    var low, high := len % TWO_32, len / TWO_32;
    var lo' := (lo + low) % TWO_32;
    var carry := if lo' < low then 1 else 0;
    assert lo + low == lo' + carry * TWO_32;
    var top := hi + high + carry;
    var p := n / TWO_64 + top / TWO_32;
    assert n + len == p * TWO_64 + (top % TWO_32 * TWO_32 + lo');
    Remainder(n + len, p, top % TWO_32 * TWO_32 + lo');
  }

  lemma Remainder(v: nat, q: nat, r: nat)
    requires v == q * TWO_64 + r && r < TWO_64
    ensures v % TWO_64 == r
  {}

  // ----- whole messages

  function Concat(chunks: seq<seq<Byte>>): seq<Byte> {
    if |chunks| == 0 then [] else Concat(chunks[..|chunks| - 1]) + chunks[|chunks| - 1]
  }

  /** However a message is cut up, wherever each piece lies, the digest is that of the whole message. */
  method DigestOfPieces(pieces: seq<seq<Byte>>, addrs: seq<nat>, bigEndian: bool, unalignedLoads: bool)
    returns (digest: seq<Byte>)
    requires |addrs| == |pieces|
    ensures digest == Digest(Concat(pieces))
  {
    hide Digest;
    var ctx := new Context(bigEndian, unalignedLoads);
    hide Context.Valid;
    for i := 0 to |pieces|
      invariant ctx.Valid() && ctx.message == Concat(pieces[..i])
      invariant fresh(ctx) && fresh(ctx.buffer)
    {
      assert pieces[..i + 1][..i] == pieces[..i];
      ctx.ProcessBytes(pieces[i], addrs[i]);
    }
    assert pieces[..|pieces|] == pieces;
    digest := ctx.Finish();
  }

  /** md5_buffer. */
  method DigestOfBuffer(data: seq<Byte>, addr: nat, bigEndian: bool, unalignedLoads: bool)
    returns (digest: seq<Byte>)
    ensures digest == Digest(data)
  {
    digest := DigestOfPieces([data], [addr], bigEndian, unalignedLoads);
    assert Concat([]) == [] && [data][..0] == [];
    assert Concat([data]) == data;
  }

  /** A stream whose reads may be short; it ends at end of file or with an error. */
  class Stream {
    var remaining: seq<Byte>
    var shortReads: seq<nat>
    const failing: bool

    constructor (contents: seq<Byte>, shortReads: seq<nat>, failing: bool)
      ensures remaining == contents && this.failing == failing
    {
      remaining, this.shortReads, this.failing := contents, shortReads, failing;
    }

    method Read(max: nat) returns (chunk: seq<Byte>)
      requires max > 0
      modifies this
      ensures |chunk| <= max && old(remaining) == chunk + remaining
      ensures chunk == [] <==> old(remaining) == []
    {
      var n := if |remaining| < max then |remaining| else max;
      if |shortReads| > 0 {
        if 0 < shortReads[0] < n {
          n := shortReads[0];
        }
        shortReads := shortReads[1..];
      }
      chunk, remaining := remaining[..n], remaining[n..];
    }
  }

  const BLOCKSIZE: nat := 4096

  /** The inner loop of md5_stream: read until the block is full or nothing more comes. */
  method ReadBlock(stream: Stream) returns (block: seq<Byte>, n: nat)
    modifies stream
    ensures old(stream.remaining) == block + stream.remaining && |block| <= BLOCKSIZE
    ensures n == 0 ==> |block| < BLOCKSIZE && stream.remaining == []
    ensures n != 0 ==> |block| == BLOCKSIZE
  {
    block, n := [], 1;
    while |block| < BLOCKSIZE && n != 0
      invariant |block| <= BLOCKSIZE && old(stream.remaining) == block + stream.remaining
      invariant n == 0 ==> |block| < BLOCKSIZE && stream.remaining == []
      decreases |stream.remaining|, n
    {
      var chunk := stream.Read(BLOCKSIZE - |block|);
      block := block + chunk;
      n := |chunk|;
    }
  }

  /**
   md5_stream, with its buffer at any address: for every schedule of short reads the digest is that
   of the contents; only a stream error fails.
   */
  method DigestOfStream(stream: Stream, addr: nat, bigEndian: bool, unalignedLoads: bool)
    returns (failed: bool, digest: seq<Byte>)
    modifies stream
    ensures failed <==> stream.failing
    ensures !failed ==> digest == Digest(old(stream.remaining))
  {
    hide Digest, Context.Hashed, Context.Counts;
    var ctx := new Context(bigEndian, unalignedLoads);
    assert ctx.message[..|ctx.message|] == ctx.message;
    hide Context.Folded, Context.Valid;
    digest := [];
    var block, n := ReadBlock(stream);
    while n != 0
      invariant fresh(ctx) && fresh(ctx.buffer) && ctx.buffer.Length == 128 && ctx.buflen == 0
      invariant ctx.Folded(ctx.message)
      invariant old(stream.remaining) == ctx.message + block + stream.remaining
      invariant |block| <= BLOCKSIZE
      invariant n == 0 ==> |block| < BLOCKSIZE && stream.remaining == []
      invariant n != 0 ==> |block| == BLOCKSIZE
      decreases |stream.remaining| + (if n == 0 then 0 else 1)
    {
      ctx.Absorb(block);
      block, n := ReadBlock(stream);
    }
    if stream.failing {
      return true, digest;
    }
    failed := false;
    assert old(stream.remaining) == ctx.message + block;
    digest := FinishStream(ctx, block, addr);
  }

  /** The end of md5_stream: the last, partial block. */
  method FinishStream(ctx: Context, block: seq<Byte>, addr: nat) returns (digest: seq<Byte>)
    requires ctx.buffer.Length == 128 && ctx.buflen == 0 && ctx.Folded(ctx.message)
    modifies ctx, ctx.buffer
    ensures digest == Digest(old(ctx.message) + block)
  {
    hide Digest;
    assert ctx.message[..|ctx.message|] == ctx.message;
    assert ctx.Valid();
    hide Context.Valid;
    if |block| > 0 {
      ctx.ProcessBytes(block, addr);
    } else {
      assert ctx.message + block == ctx.message;
    }
    digest := ctx.Finish();
  }
}
