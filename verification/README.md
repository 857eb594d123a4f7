# Verification of the bundled C library and of the concurrent parts of the forwarder

A Dafny model of six pieces of this repository, proved against independent definitions of what they are for.
`dafny verify dfyconfig.toml` checks everything.

| piece | source | modules | main results |
|---|---|---|---|
| streaming MD5 | `glibc-2.27/crypt/md5.c`, `md5-block.c` | `Md5Spec` (RFC 1321), `Md5Block`, `Md5`, `Md5Known` | `Md5.DigestOfPieces`, `Md5.DigestOfStream` |
| UFC-crypt DES | `glibc-2.27/crypt/crypt.c`, `crypt_util.c`, `crypt-entry.c` | `DesSpec` (FIPS PUB 46-3), `Feistel`, `SboxLaws`, `CipherLaws`, `UfcData`, `DesKernel`, `Wires`, `UfcTables`, `UfcSalt`, `UfcSetup`, `KeyTab`, `BlockPerm`, `DesRefinement`, `SaltedDes`, `CryptKeys`, `CryptText`, `CryptData` | `CryptData.CryptData.Encrypt`, `CryptData.RoundTrip`, `CryptData.CryptData.Crypt`, `SaltedDes.RunsRefine`, `CryptData.CryptData.SetupSalts`, `DesKernel.KernelsAgree`, `SboxLaws.OneBitSpreads`, `CipherLaws.Complementation` |
| message catalogs | `glibc-2.27/catgets/` | `CatalogInput`, `CatalogRun`, `CatalogLines`, `CatalogTable`, `CatalogPlanes`, `CatalogFile`, `CatalogMerge`, `Gencat` | `Gencat.Compile` with `Gencat.CompiledAlone` and `Gencat.CompiledOver`, `CatalogRun.AcceptedStays`, `CatalogLines.CurrentExactly`, `CatalogLines.AcceptedExactly`, `Gencat.Update`, `CatalogTable.BestSize`, `CatalogFile.Open`, `CatalogFile.Ask` |
| thread pool | `threadpool.c` | `PoolProtocol`, `ThreadPool`, `PoolRuns` | `PoolProtocol.AlwaysInv`, `PoolProtocol.CreateReturns`, `PoolRuns.AsksThree`, `PoolRuns.CreatesThree`, `PoolRuns.WokenLeaves` |
| argp | `glibc-2.27/argp/argp-parse.c`, `argp-help.c`, `glibc-2.27/posix/getopt.c` | `ArgpOptions`, `ArgpConvert`, `ArgpTables`, `ArgpParser`, `ArgpGetopt`, `ArgpArguments`, `ArgpHelp`, `ArgpAgreement` | `ArgpParser.ParserInit`, `ArgpGetopt.HandleLetter`, `ArgpGetopt.ArgumentAsked`, `ArgpArguments.LongAgreesWithLetter`, `ArgpParser.ParseLong`, `ArgpHelp.ArgpHol` |
| fan-out hand-over | `util.c` | `Fanout` | `Fanout.HandOver`, `Fanout.FourEach`, `Fanout.AfterFailure`, `Fanout.AllServed` |

How the pieces are modelled:

* Code that changes state in place is a class or a method over arrays with the loops of the source; each is proved against a
  specification function or predicate, and the properties are proved about those.
* MD5 words are 32-bit bit vectors. DES words are sequences of bits, most significant first, so that shifts, masks and table
  lookups keep their meaning and every table index is an obligation. Both builds of the DES kernel are modelled; the rest
  of `crypt_util.c` follows the 64-bit build.
* The thread pool and the fan-out are state machines with one step for each locked region, so that a run is any interleaving.
  The classes `ThreadPool.Pool` and `Fanout.Block` hold the variables of the source, and each of their methods is proved to
  be one step. A waiting worker may wake up at any time, which covers signals, broadcasts and spurious wakeups.
* Tables and constants are written down twice, in the code's form and in the standard's, and what both mean is said once more
  on its own: criteria of the selection functions, laws of the key schedule and of the cipher, a known digest, and laws of
  whole runs that mention what was there (threads, tasks, lines) and not how a step is defined.
* Reads outside a file or a table, a chain that leaves the table and a division by zero are results of their own in the
  catalog code, so that they are part of what is decided and not excluded by a precondition.

Where the code does not do what it is for, the model keeps the code, and the exact condition is proved:

* `threadpool_create` joins the workers it has just started, so it returns only for a minimum of zero threads
  (`PoolProtocol.CreateReturns`). The other pool results do not depend on how the pool came to its producers.
* `parser_init` allocates one character too few with ARGP_NO_ARGS if every table entry is a short option with an optional
  argument, in particular if there is no entry at all (`ArgpParser.ShortRoomExact`, `ArgpParser.ShortRoomMissing`).
* Option letters that mean something to getopt do not all arrive where they are declared. `ArgpGetopt.HandleLetter` and
  `ArgpGetopt.ArgumentAsked` have the exact conditions. A colon or semicolon never arrives as a letter. A 'W' whose next letter
  is ';' is taken for a long option (`ArgpGetopt.WDisguised`). A letter without an argument whose next letter is ':' is asked for
  one (`ArgpGetopt.ColonAsks`). A '-' or '+' that is also the leading character reaches the first group
  (`ArgpGetopt.PlusAstray`). A first letter '-' or '+' is taken for the order, which can make getopt report missing arguments
  by a colon that nobody declared (`ArgpGetopt.PlusSwallowed`). Keys and group numbers are restricted as
  `ArgpOptions.PackExact` says.
* Help lists the letter of an alias of a documentation entry, which the parser does not accept (`ArgpAgreement.HelpAgrees`).
* An empty catalog file makes the reader look for a terminator beyond the end of the file (`CatalogFile.Readable`).
* Files with a zero header field are opened, but catgets cannot answer from them (`CatalogFile.Ask`, `CatalogFile.OddFile`).
* A string that starts at 2^32 bytes or later is answered with another one (`CatalogFile.StoredIsOther`); the exact answer is
  always the string at the offset modulo 2^32 (`Gencat.Consult`).
* The size search treats the size UINT_MAX as "nothing found" (`CatalogTable.BestSize`). Only a count of more than 2^32 lines
  gets there (`CatalogTable.SizeTaken`). When nothing is found the table is a single slot, which more than one message
  leaves (`Gencat.SearchHasRoom`).
* `crypt` erases the key table, so an `encrypt` after it uses no key until `setkey` is called again: it applies a cipher that
  undoes itself, whatever direction is asked for (`CryptData.WithoutKey`).
* A failed `pthread_create` leaves the mutex of `distribute_run` locked. Before the last client the function then never ends;
  at the last client it goes on to join a thread id that was never set (`Fanout.AfterFailure`, `Fanout.AllServed`).

## Model

| member | source | states |
|---|---|---|
| `Md5Block.FunIsAux` | glibc-2.27/crypt/md5-block.c:5-8 | the optimised FF and FG (and FH, FI) are the functions F, G, H and I of section 3.4 of RFC 1321, for all words |
| `Md5Block.OpIsStep` | glibc-2.27/crypt/md5-block.c:49-61 | one OP, with the word, shift and constant of its place, is one step of the standard |
| `Md5Block.Table1` | glibc-2.27/crypt/md5-block.c:70-85 | the word index, shift and constant at each of the first sixteen OPs are those of the standard |
| `Md5Block.Table2` | glibc-2.27/crypt/md5-block.c:101-116 | the same for the second round |
| `Md5Block.Table3` | glibc-2.27/crypt/md5-block.c:119-134 | the same for the third round |
| `Md5Block.Table4` | glibc-2.27/crypt/md5-block.c:137-152 | the same for the fourth round |
| `Md5Block.Round1` | glibc-2.27/crypt/md5-block.c:70-85 | sixteen OPs in the order of the code, with rotating roles of A to D, are steps 1 to 16 of the standard |
| `Md5Block.Round2` | glibc-2.27/crypt/md5-block.c:91-116 | the same for steps 17 to 32 |
| `Md5Block.Round3` | glibc-2.27/crypt/md5-block.c:119-134 | the same for steps 33 to 48 |
| `Md5Block.Round4` | glibc-2.27/crypt/md5-block.c:137-152 | the same for steps 49 to 64 |
| `Md5Block.CompressBlock` | glibc-2.27/crypt/md5-block.c:34-159 | one turn of the loop is the compression function of the standard |
| `Md5Block.CompressBlocks` | glibc-2.27/crypt/md5-block.c:32-166 | the loop folds the compression function over all blocks, on hosts of either byte order |
| `Md5Block.LoadIsWord` | glibc-2.27/crypt/md5.c:53-59 | loading a word and applying SWAP gives the little-endian word on hosts of either byte order |
| `Md5Block.StoreIsWordBytes` | glibc-2.27/crypt/md5.c:53-59 | storing a swapped word leaves its little-endian bytes on hosts of either byte order |
| `Md5.CountAdds` | glibc-2.27/crypt/md5-block.c:26-30 | the two-word increment adds the length to the count modulo 2^64, carry included |
| `Md5.LengthWords` | glibc-2.27/crypt/md5.c:117-120 | the two words stored by the shifts are the bit length modulo 2^64 in the byte order of section 3.2 of RFC 1321, even after the byte count has wrapped |
| `Md5.Context.constructor` | glibc-2.27/crypt/md5.c:69-79 | the four registers as written in the source; a new context represents the empty message |
| `Md5.Context.CountBlock` | glibc-2.27/crypt/md5-block.c:26-30 | the counter words represent n + len after counting len |
| `Md5.Context.ProcessBlock` | glibc-2.27/crypt/md5-block.c:13-166 | registers and counter represent the folded prefix extended by the data |
| `Md5.Context.TopUp` | glibc-2.27/crypt/md5.c:207-213 | the buffer gains min(128 - buflen, len) bytes, and folded blocks plus buffer still represent the input |
| `Md5.Context.Flush` | glibc-2.27/crypt/md5.c:215-223 | flushing more than 64 buffered bytes leaves at most 63 and keeps what is represented |
| `Md5.Context.CopyBlocks` | glibc-2.27/crypt/md5.c:240-246 | the unaligned path, block by block through the buffer, represents the same input and leaves 1 to 64 bytes |
| `Md5.Context.TakeBlocks` | glibc-2.27/crypt/md5.c:229-254 | either path consumes whole blocks and keeps what is represented |
| `Md5.Context.StageRest` | glibc-2.27/crypt/md5.c:256-270 | the rest is staged and what is represented grows by it, with at most 64 bytes pending |
| `Md5.Context.ProcessBytes` | glibc-2.27/crypt/md5.c:202-271 | for any data at any address, the context represents old message + data: folded blocks and buflen <= 64 pending bytes |
| `Md5.Context.PadBuffer` | glibc-2.27/crypt/md5.c:114-120 | buffer and length words hold exactly the pending bytes followed by the padding of sections 3.1 and 3.2 |
| `Md5.Context.StoreLength` | glibc-2.27/crypt/md5.c:117-120 | the bit length is stored as the eight little-endian bytes of section 3.2, on hosts of either byte order |
| `Md5.Context.Finish` | glibc-2.27/crypt/md5.c:102-126 | the result is the RFC 1321 digest of everything processed |
| `Md5.Context.Read` | glibc-2.27/crypt/md5.c:86-95 | the registers are output as little-endian bytes on hosts of either byte order |
| `Md5.DigestOfPieces` | glibc-2.27/crypt/md5.c:202-271 | for every message, every way of cutting it and every alignment, init, calls and finish give the digest of the concatenation |
| `Md5.DigestOfBuffer` | glibc-2.27/crypt/md5.c:186-199 | md5_buffer is the RFC 1321 digest |
| `Md5.ReadBlock` | glibc-2.27/crypt/md5.c:149-159 | the inner loop fills a block unless the stream ends, whatever the partial reads |
| `Md5.DigestOfStream` | glibc-2.27/crypt/md5.c:131-180 | for every schedule of partial reads and every address of the buffer the result is the digest of the stream contents, also at multiples of the block size; only a stream error fails |
| `Md5Known.InitBytes` | glibc-2.27/crypt/md5.c:72-75 | the four initial words are the sixteen bytes of section 3.3 of RFC 1321 |
| `Md5Known.AbcDigest` | glibc-2.27/crypt/md5.c:202-271 | the digest of "abc" is the one in section A.5 of RFC 1321 |
| `DesKernel.Offsets` | glibc-2.27/crypt/crypt.c:96-100 | key xor half: each 16-bit piece is an aligned offset into its table pair, in the second 4096-entry half exactly by the 0x8000 bits, because of the 0x7ff87ff8 mask |
| `DesKernel.OffsetsFit` | glibc-2.27/crypt/crypt.c:96-100 | for any entry of a key table, filled or not, every offset is aligned and within its table pair |
| `DesKernel.XorInRange` | glibc-2.27/crypt/crypt_util.c:178-183 | words within the bit mask stay within it under exclusive or |
| `DesKernel.Round64` | glibc-2.27/crypt/crypt.c:96-100 | one round of the 64-bit version applies the kernel round function, every lookup in range |
| `DesKernel.Sixteen64` | glibc-2.27/crypt/crypt.c:94-108 | eight double rounds and the exchange are one Feistel run over the sixteen keys |
| `DesKernel.Doit64` | glibc-2.27/crypt/crypt.c:81-113 | the 64-bit version iterates that run, and its halves stay in range |
| `DesKernel.Round32` | glibc-2.27/crypt/crypt.c:52-57 | one round of the 32-bit version computes the same words as the 64-bit one |
| `DesKernel.Sixteen32` | glibc-2.27/crypt/crypt.c:50-66 | the same for the sixteen rounds and the exchange |
| `DesKernel.Doit32` | glibc-2.27/crypt/crypt.c:36-69 | the same for every iteration count |
| `DesKernel.KernelsAgree` | glibc-2.27/crypt/crypt.c:36-113 | on the same tables, keys and halves both versions return the same words, for every iteration count |
| `DesKernel.KernelUndo` | glibc-2.27/crypt/crypt.c:81-113 | the kernel followed by the kernel on reversed keys is the identity, for any tables, any keys and any iteration count |
| `Feistel.IterateUndo` | glibc-2.27/crypt/crypt.c:93-109 | any number of Feistel runs is undone by as many runs with reversed keys, for any round function |
| `DesSpec.CipherUndo` | glibc-2.27/crypt/crypt_util.c:156-173 | a cipher with the permutations of FIPS PUB 46-3 and any round function, salted or not, is undone by the cipher with reversed keys |
| `DesSpec.PermuteOnce` | glibc-2.27/crypt/crypt.c:93-109 | iterating the runs between one initial and one final permutation is enciphering that many times in a row |
| `DesSpec.PermsInverse` | glibc-2.27/crypt/crypt_util.c:156-173 | initial_perm and final_perm are inverse permutations |
| `Wires.Fill` | glibc-2.27/crypt/crypt_util.c:360-368 | the nested loops fill a table whose entry for a piece is the or of the target bits of its set bits |
| `Wires.GatherBit` | glibc-2.27/crypt/crypt_util.c:676-680 | or-ing the entries of all pieces sets a bit exactly if its source bit is set |
| `UfcTables.Pc1Gather` | glibc-2.27/crypt/crypt_util.c:354-368 | or-ing do_pc1 entries of a key gives its permuted choice 1 |
| `UfcTables.Pc2Gather` | glibc-2.27/crypt/crypt_util.c:370-384 | or-ing do_pc2 entries of the two halves gives permuted choice 2, spread over the bit mask |
| `UfcTables.EpGather` | glibc-2.27/crypt/crypt_util.c:386-407 | or-ing eperm32tab entries gives perm32 followed by the E expansion, spread over the bit mask |
| `UfcTables.EfpGather` | glibc-2.27/crypt/crypt_util.c:418-452 | or-ing efp entries of two expanded halves gives the final permutation of the unexpanded ones |
| `UfcSetup.InvertE` | glibc-2.27/crypt/crypt_util.c:409-416 | e_inverse points every bit to a place where the E expansion puts it |
| `UfcData.Pc1Entry` | glibc-2.27/crypt/crypt_util.c:54-59 | the entries of the code are those of permuted choice 1 of the standard |
| `UfcData.RotsEntry` | glibc-2.27/crypt/crypt_util.c:65-67 | the same for the left shifts |
| `UfcData.Pc2Entry` | glibc-2.27/crypt/crypt_util.c:73-78 | the same for permuted choice 2 |
| `UfcData.EselEntry` | glibc-2.27/crypt/crypt_util.c:84-89 | the same for the bit selection table E |
| `UfcData.Perm32Entry` | glibc-2.27/crypt/crypt_util.c:95-98 | the same for the permutation P |
| `UfcData.SboxIs` | glibc-2.27/crypt/crypt_util.c:103-151 | the same for the eight selection functions, all 512 entries |
| `UfcData.InitialPermEntry` | glibc-2.27/crypt/crypt_util.c:157-162 | the same for the initial permutation |
| `UfcData.FinalPermEntry` | glibc-2.27/crypt/crypt_util.c:168-173 | the same for its inverse |
| `SboxLaws.OneBitSpreads` | glibc-2.27/crypt/crypt_util.c:103-151 | for every selection function and every six bits, changing one bit changes at least two bits of the result |
| `SboxLaws.MiddleSpreads` | glibc-2.27/crypt/crypt_util.c:103-151 | so does changing the two bits in the middle |
| `SboxLaws.RowsArePermutations` | glibc-2.27/crypt/crypt_util.c:103-151 | with the outer two bits fixed a selection function is one-to-one: each row is a permutation of its sixteen values |
| `CipherLaws.PermOneToOne` | glibc-2.27/crypt/crypt_util.c:95-98 | no bit is chosen twice by P, which is a permutation therefore |
| `CipherLaws.Pc1OneToOne` | glibc-2.27/crypt/crypt_util.c:54-59 | no key bit is chosen twice by permuted choice 1 |
| `CipherLaws.Pc2OneToOne` | glibc-2.27/crypt/crypt_util.c:73-78 | no bit is chosen twice by permuted choice 2 |
| `CipherLaws.ShiftedAt` | glibc-2.27/crypt/crypt_util.c:65-67 | where each bit of a key half is after n rounds of shifts |
| `CipherLaws.ShiftsComeRound` | glibc-2.27/crypt/crypt_util.c:65-67 | after sixteen rounds both halves of the key are where they began |
| `CipherLaws.LastRoundKey` | glibc-2.27/crypt/crypt_util.c:682-699 | so the last round key is permuted choice 2 of the key as permuted choice 1 left it |
| `CipherLaws.Complementation` | glibc-2.27/crypt/crypt.c:93-109 | for every key, block and salt: complementing key and block complements the result |
| `CipherLaws.WeakKey` | glibc-2.27/crypt/crypt.c:93-109 | under a key whose permuted halves are each of one bit, enciphering twice changes nothing, whatever the salt |
| `CipherLaws.WeakTimes` | glibc-2.27/crypt/crypt.c:93-109 | and any odd number of encipherings is one |
| `CipherLaws.TimesUndo` | glibc-2.27/crypt/crypt.c:93-109 | as many decipherings undo any number of encipherings, for any round function |
| `UfcSetup.SmallTables.constructor` | glibc-2.27/crypt/crypt_util.c:347-452 | all small tables hold what their wires say |
| `UfcSalt.SLookupIsS` | glibc-2.27/crypt/crypt_util.c:319-319 | s_lookup on the table of the code is the S-box function of the standard |
| `UfcSalt.OrIsEntry` | glibc-2.27/crypt/crypt_util.c:500-527 | the four or-ed lookups of an sb entry are S-box pair, perm32 and E expansion |
| `UfcSetup.FillSb` | glibc-2.27/crypt/crypt_util.c:490-531 | an sb table holds that value for each of its 4096 indices |
| `UfcSalt.ShuffleExchanges` | glibc-2.27/crypt/crypt_util.c:564-574 | a shuffle exchanges exactly the bit pairs that the mask selects |
| `UfcSalt.ShuffleCompose` | glibc-2.27/crypt/crypt_util.c:564-574 | two shuffles are one shuffle by the exclusive or of their masks |
| `UfcSalt.SaltDigits` | glibc-2.27/crypt/crypt_util.c:631-638 | the six bits of a salt character are the binary digits of its value, the least significant first |
| `UfcSalt.AsciiToBin` | glibc-2.27/crypt/crypt_util.c:175-175 | the value of a salt character is its place in "./", the digits, the capital and the small letters |
| `UfcSalt.DotsAreZero` | glibc-2.27/crypt/crypt_util.c:631-638 | the salt ".." has no bits |
| `UfcSetup.ShuffleSb` | glibc-2.27/crypt/crypt_util.c:564-574 | shuffling tables of one salt by a mask gives the tables of that salt xor the mask |
| `UfcSetup.RotatedLow` | glibc-2.27/crypt/crypt_util.c:682-699 | the unmasked rotation is a true 28-bit rotation on the low 28 bits and keeps every higher bit an echo of a lower one |
| `UfcSetup.RolledIsShifted` | glibc-2.27/crypt/crypt_util.c:682-699 | after any number of rounds the low 28 bits are those of the standard key schedule |
| `KeyTab.SelectHalf` | glibc-2.27/crypt/crypt_util.c:676-680 | the first loop computes a half of permuted choice 1 |
| `KeyTab.LookupSeptets` | glibc-2.27/crypt/crypt_util.c:686-689 | four lookups compute half a round key |
| `KeyTab.MakeKeys` | glibc-2.27/crypt/crypt_util.c:662-714 | the key table holds the sixteen round keys of FIPS PUB 46-3, packed, for every key |
| `DesRefinement.LookupsAreF` | glibc-2.27/crypt/crypt.c:97-100 | the four sb lookups are the E expansion of the cipher function f; for a key entry that is not filled, of the selections by the first table of each pair alone |
| `SaltedDes.SaltedEntries` | glibc-2.27/crypt/crypt_util.c:626-638 | the expansion table of a salt: entries j and 24 + j exchanged for bit j of its first character, 6 + j and 30 + j for bit j of its second, all others as in E |
| `SaltedDes.ShufflePack` | glibc-2.27/crypt/crypt_util.c:564-574 | shuffling a packed value by a salt exchanges its bits i and i + 24 for the salt bits of i |
| `SaltedDes.SaltedLookups` | glibc-2.27/crypt/crypt.c:97-100 | what a round looks up in the shuffled tables is what it looks up in the initial ones, shuffled |
| `SaltedDes.KernelRound` | glibc-2.27/crypt/crypt.c:96-100 | one kernel round on tables and halves of a salt is one round of the standard with the expansion so salted, or of the unkeyed cipher for a key entry that is not filled |
| `SaltedDes.RunsRefine` | glibc-2.27/crypt/crypt.c:93-109 | any number of runs of the kernel on tables of any salt are as many runs of DES with the expansion exchanged by that salt |
| `SaltedDes.UnsaltedCipher` | glibc-2.27/crypt/crypt_util.c:626-630 | the salt of no bits leaves the cipher of FIPS PUB 46-3, for any round keys |
| `SaltedDes.UnkeyedTwice` | glibc-2.27/crypt/crypt.c:93-109 | with a key table that is not filled, enciphering undoes itself |
| `BlockPerm.LoadHalf` | glibc-2.27/crypt/crypt_util.c:841-862 | loading gives the expanded half of the initial permutation of the block |
| `BlockPerm.Unsalt` | glibc-2.27/crypt/crypt_util.c:726-730 | the exchange by the current salt bits undoes the shuffle |
| `BlockPerm.FinalPermutation` | glibc-2.27/crypt/crypt_util.c:720-755 | the result is the final permutation of the two unexpanded halves |
| `CryptData.ComputeSaltBits` | glibc-2.27/crypt/crypt_util.c:631-638 | the loop computes the salt bits |
| `CryptKeys.KeyBytes` | glibc-2.27/crypt/crypt_util.c:910-914 | each byte holds seven key bits, whatever bits the entries have: an entry sets the bits its shifted value reaches |
| `CryptKeys.KeyBitsOfBits` | glibc-2.27/crypt/crypt_util.c:910-914 | entries 0 and 1 are the key bits themselves |
| `CryptKeys.PasswordBytes` | glibc-2.27/crypt/crypt-entry.c:125-127 | the copied password bytes give the low seven bits of the first eight bytes before a NUL |
| `CryptData.CryptData.Init` | glibc-2.27/crypt/crypt_util.c:490-537 | the tables are fresh and no salt is current |
| `CryptData.CryptData.SetupSalt` | glibc-2.27/crypt/crypt_util.c:603-660 | rejected salts change no salt, accepted ones become current, and the sb tables are always the initial ones shuffled by the current salt alone |
| `CryptData.CryptData.SetupSalts` | glibc-2.27/crypt/crypt_util.c:603-660 | after any sequence of accepted and rejected salts the tables depend on the last accepted one only |
| `CryptData.CryptData.FillKeys` | glibc-2.27/crypt/crypt_util.c:662-714 | the key table holds the key schedule of the standard, forward |
| `CryptData.CryptData.SetKey` | glibc-2.27/crypt/crypt_util.c:901-916 | the key table holds the key schedule of the standard for the key bits of any 64 entries, forward |
| `CryptData.CryptData.ClearSalt` | glibc-2.27/crypt/crypt_util.c:810-813 | no salt is left, and the key table is unchanged |
| `CryptData.CryptData.Turn` | glibc-2.27/crypt/crypt_util.c:819-839 | the key table is forward exactly when direction is zero, and direction is zero exactly when edflag is |
| `CryptData.ReverseInPlace` | glibc-2.27/crypt/crypt_util.c:820-837 | the swaps reverse the key table |
| `CryptData.CryptData.Permuted` | glibc-2.27/crypt/crypt-entry.c:132-138 | under any current salt, kernel and final permutation are runs of the salted cipher and the final permutation |
| `CryptData.CryptData.Transform` | glibc-2.27/crypt/crypt_util.c:841-874 | load, kernel and final permutation are the cipher, for the keys in the table |
| `CryptData.CryptData.Encrypt` | glibc-2.27/crypt/crypt_util.c:795-886 | for every state of the structure: with a key, the block becomes its encipherment by FIPS PUB 46-3, or its decipherment for edflag other than zero; without one (before setkey, after crypt) its image under the unkeyed cipher; it stays a block of zeros and ones |
| `CryptData.RoundTrip` | glibc-2.27/crypt/crypt_util.c:795-886 | after setkey with any entries, deciphering restores an enciphered block, with any operations on other blocks and any salts in between |
| `CryptData.CryptData.Hash` | glibc-2.27/crypt/crypt-entry.c:122-138 | twenty-five encipherings of the zero block with the password as key and the expansion salted |
| `CryptData.CryptData.Crypt` | glibc-2.27/crypt/crypt-entry.c:106-153 | for every password and salt, after any earlier salts and keys: rejected exactly for a bad salt character, which changes no key; otherwise the text of the password under the salt, and the key table is erased |
| `CryptData.WithoutKey` | glibc-2.27/crypt/crypt-entry.c:145-151 | after crypt, two encryptions of a block in any directions give it back |
| `CryptText.OutputConversion` | glibc-2.27/crypt/crypt_util.c:762-786 | the salt followed by the 64 result bits, six to a character, the last four filled up with zeros |
| `CryptText.SaltAlphabet` | glibc-2.27/crypt/crypt_util.c:581-595 | the characters accepted in a salt are exactly those that stand for six bits |
| `CryptText.ResultUndone` | glibc-2.27/crypt/crypt-entry.c:129-138 | twenty-five decipherings of the result lead back to the block of zeros |
| `CryptText.NoPassword` | glibc-2.27/crypt/crypt-entry.c:125-138 | for the empty password the twenty-five encipherings come to one, under any salt |
| `CryptText.TextExact` | glibc-2.27/crypt/crypt_util.c:762-786 | two texts are the same if and only if the salts and the results are |
| `CryptText.Checks` | glibc-2.27/crypt/crypt-entry.c:106-153 | a stored text given as salt reproduces itself if and only if the password has the stored result |
| `CryptText.SameText` | glibc-2.27/crypt/crypt-entry.c:125-127 | bytes after the eighth and most significant bits make no difference |
| `CatalogInput.Insert` | glibc-2.27/catgets/gencat.c:784-803 | sorted insertion keeps the list strictly ascending and adds exactly the message |
| `CatalogInput.DefineNumbered` | glibc-2.27/catgets/gencat.c:588-650 | a numbered message: rejected for zero or a number given before; otherwise added, and a symbolic message that held the number moves to a fresh number at the end; nothing is lost |
| `CatalogInput.Displace` | glibc-2.27/catgets/gencat.c:620-643 | the moved message and the new one, everything else unchanged, still strictly ascending |
| `CatalogInput.DefineSymbolic` | glibc-2.27/catgets/gencat.c:651-677 | a symbolic message gets the next unused number unless its name is taken |
| `CatalogInput.FindSet` | glibc-2.27/catgets/gencat.c:1074-1096 | the set of number + 1, created at the head of the list if it is missing; set numbers stay distinct |
| `CatalogInput.Builder.SelectSet` | glibc-2.27/catgets/gencat.c:454-463 | the set of a number becomes current and is named; nothing is lost |
| `CatalogInput.Builder.constructor` | glibc-2.27/catgets/gencat.c:291-301 | the lists start with the default set, empty and current, and nothing counted |
| `CatalogInput.Builder.Step` | glibc-2.27/catgets/gencat.c:386-677 | one line, as a relation between the lists before and after: which set becomes current, what is added, what last_set and the total become; every list stays strictly ascending with last_message at least every number in it, and nothing is lost |
| `CatalogInput.Builder.ReadInput` | glibc-2.27/catgets/gencat.c:386-805 | the lists go from state to state by that relation, line after line |
| `CatalogRun.LineAdds` | glibc-2.27/catgets/gencat.c:588-677 | the message of an accepted line is in the current set, under its number if it has one |
| `CatalogRun.LineExplains` | glibc-2.27/catgets/gencat.c:588-677 | every message after a line was there before, apart from an automatic number, or is that of the line |
| `CatalogRun.AcceptedStays` | glibc-2.27/catgets/gencat.c:588-805 | over any sequence of lines, the message of every accepted line is still in its set at every later time: under its number if numbered, under some number otherwise |
| `CatalogRun.OnlyAccepted` | glibc-2.27/catgets/gencat.c:386-805 | every message of the lists comes from an accepted line of this set, with its text |
| `CatalogLines.CurrentSet` | glibc-2.27/catgets/gencat.c:386-463 | for every run from the start: the set of a line is the one its last effective "$set" line names by number; for a new name, one more than every number given or assigned by an earlier "$set"; before any, set 1 |
| `CatalogLines.OneSet` | glibc-2.27/catgets/gencat.c:386-463 | no other set fits that description |
| `CatalogLines.CurrentExactly` | glibc-2.27/catgets/gencat.c:454-463 | so a set is current exactly if the lines say so |
| `CatalogLines.HighestAlways` | glibc-2.27/catgets/gencat.c:397-403 | last_set is the highest number of a set given or assigned so far |
| `CatalogLines.NamesExactly` | glibc-2.27/catgets/gencat.c:427-463 | a set has a name exactly if a "$set" line gave it and no later one chose the set by number |
| `CatalogLines.NameUsedExactly` | glibc-2.27/catgets/gencat.c:427-449 | a name is refused exactly if some set has it |
| `CatalogLines.AcceptedExactly` | glibc-2.27/catgets/gencat.c:588-677 | a message line is accepted exactly if it has a name, or a number other than zero, that no earlier accepted line of its set has |
| `CatalogLines.NamedNumber` | glibc-2.27/catgets/gencat.c:651-677 | an accepted named message gets one more than the highest number of its set, and no other message changes |
| `CatalogLines.DisplacedNumber` | glibc-2.27/catgets/gencat.c:620-643 | an accepted numbered message moves the named one that had its number to one more than the highest, and no other message changes |
| `CatalogLines.FreeNumber` | glibc-2.27/catgets/gencat.c:645-650 | one that finds its number free is added, and no other message changes |
| `CatalogLines.TotalCounts` | glibc-2.27/catgets/gencat.c:805-805 | total_messages counts the message lines, accepted or not |
| `CatalogTable.DepthIsLargest` | glibc-2.27/catgets/gencat.c:879-909 | the depth of a size is the largest bucket load, and at least one |
| `CatalogTable.CountSet` | glibc-2.27/catgets/gencat.c:886-905 | counting one set is exact unless the size cannot win any more; leaving the inner loop early ends this set only |
| `CatalogTable.Measure` | glibc-2.27/catgets/gencat.c:881-907 | for each size, the early abort never changes whether it is accepted, and an accepted depth is the true one |
| `CatalogTable.BestSize` | glibc-2.27/catgets/gencat.c:864-923 | the search ends with the largest of the cheapest sizes from 1 + total/5 on and its exact depth, and with (1, 1) when there is none within the limit or it is UINT_MAX itself |
| `CatalogTable.StartSize` | glibc-2.27/catgets/gencat.c:870-870 | the search starts at the first size with fewer than five message lines to a place |
| `CatalogTable.BestExists` | glibc-2.27/catgets/gencat.c:864-916 | a best size exists as soon as any size fits |
| `CatalogTable.OrdinaryFits` | glibc-2.27/catgets/gencat.c:867-879 | for fewer than about 2^32 / (1 + total/5) messages some size fits |
| `CatalogTable.SizeTaken` | glibc-2.27/catgets/gencat.c:864-923 | a count of lines, above 2^32, for which the best size is UINT_MAX itself |
| `CatalogPlanes.FreeSlot` | glibc-2.27/catgets/gencat.c:950-952 | the chain of a bucket is followed to its first free slot, which is found within the table if and only if the bucket has fewer messages than the table planes |
| `CatalogPlanes.FillSet` | glibc-2.27/catgets/gencat.c:941-968 | the messages of a set are stored in the first free slots of their buckets, with the offsets of their strings; a chain leaves the table exactly when a bucket overflows |
| `CatalogPlanes.Fill` | glibc-2.27/catgets/gencat.c:932-970 | for any lists, size and depth: no chain leaves the table exactly if no bucket has more messages than planes, and then every message sits in its bucket on the plane given by the earlier messages of the bucket and all other slots are zero |
| `CatalogPlanes.SlotIs` | glibc-2.27/catgets/gencat.c:950-957 | a slot holds one message that determines the slot, or nothing |
| `CatalogPlanes.PoolText` | glibc-2.27/catgets/gencat.c:957-962 | the C string at a stored offset is the text of the message |
| `CatalogPlanes.Catgets` | glibc-2.27/catgets/catgets.c:88-115 | for any catalog: the string of the first matching slot over all planes of the bucket, or the default, also for a failed catalog and negative numbers; a division by zero exactly for size 0, a probe beyond the table exactly for depth 0 |
| `CatalogPlanes.Lookup` | glibc-2.27/catgets/catgets.c:88-115 | on a written catalog: the text of every message present, the default for every other pair |
| `CatalogFile.FetchStore` | glibc-2.27/catgets/gencat.c:972-1001 | a word read in the writer's byte order is itself, in the other one swapped |
| `CatalogFile.StoreAllSwapped` | glibc-2.27/catgets/gencat.c:972-974 | swapping every word and storing is storing in the other byte order |
| `CatalogFile.SwapAll` | glibc-2.27/catgets/gencat.c:972-974 | the second array is the first one with every word swapped |
| `CatalogFile.WriteTables` | glibc-2.27/catgets/gencat.c:972-1004 | the file is header in host order, little-endian table, big-endian table, strings, whichever host writes it |
| `CatalogFile.ScanTable` | glibc-2.27/catgets/open_catalog.c:302-307 | the largest string offset of the table, or a read beyond the file |
| `CatalogFile.ScanString` | glibc-2.27/catgets/open_catalog.c:316-324 | the scan succeeds exactly if a terminator follows within the file |
| `CatalogFile.Open` | glibc-2.27/catgets/open_catalog.c:200-327 | for every file: opened exactly when magic, table, size check and terminator are right; read beyond its end exactly when the table leaves the file, or the size check passes and the last string does not end within the file (unless the table is empty) |
| `CatalogFile.StringsEnd` | glibc-2.27/catgets/open_catalog.c:302-324 | in every file that is opened, every string that the table mentions ends within the file |
| `CatalogFile.MagicBytes` | glibc-2.27/catgets/open_catalog.c:257-270 | any host knows a catalog by its first four bytes, de 08 04 96 or the reverse |
| `CatalogFile.AsksFor` | glibc-2.27/catgets/open_catalog.c:309-313 | the size check asks for six bytes of the twenty-four that a slot takes in the two tables |
| `CatalogFile.Ask` | glibc-2.27/catgets/catgets.c:88-115 | for every file and every pair of numbers: an opened catalog is the one in the file, it answers if and only if both header fields are positive, and the answer is the string of the first matching slot or the default |
| `CatalogFile.OddFile` | glibc-2.27/catgets/open_catalog.c:257-324 | for every size a file that is opened although its depth is 0 |
| `CatalogFile.ImageReads` | glibc-2.27/catgets/open_catalog.c:257-300 | a written file gives any reader the same size, depth, table and strings |
| `CatalogFile.ImageTruncates` | glibc-2.27/catgets/gencat.c:955-957 | the file depends on the words modulo 2^32 only |
| `CatalogFile.Readable` | glibc-2.27/catgets/open_catalog.c:257-327 | a written catalog passes all checks on hosts of either byte order if and only if it is not empty, and gives its strings and its words modulo 2^32 |
| `CatalogFile.NothingTruncated` | glibc-2.27/catgets/gencat.c:955-957 | numbers below 2^32 and strings of at most 2^32 bytes lose nothing |
| `CatalogFile.StoredAnswer` | glibc-2.27/catgets/catgets.c:101-114 | a lookup in what was read: the string at the stored offset of the message with these numbers, the default if there is none |
| `CatalogFile.StoredIsText` | glibc-2.27/catgets/gencat.c:957-962 | the string at the stored offset is the text of the message, if it starts below 2^32 |
| `CatalogFile.StoredIsOther` | glibc-2.27/catgets/gencat.c:957-962 | a string that starts 2^32 bytes behind another one is answered with the other one |
| `CatalogMerge.MergeMessage` | glibc-2.27/catgets/gencat.c:1254-1295 | one old message: inserted in order if its number is absent, dropping an empty new one if present, otherwise without effect |
| `CatalogMerge.TakeSlot` | glibc-2.27/catgets/gencat.c:1244-1295 | one slot, with the cached set: the lists become one step of the merge, and a message is added exactly if its key is new |
| `CatalogMerge.FoldedIsMerged` | glibc-2.27/catgets/gencat.c:1240-1297 | slot by slot without a key in two slots is the keyed merge |
| `CatalogMerge.ReadOld` | glibc-2.27/catgets/gencat.c:1217-1297 | for any old catalog the lists hold what the slots do one after the other and stay strictly ascending, and the total grows by the messages inserted; if no key appears twice, this is exactly the keyed merge: new definitions win, an empty new message deletes itself and the old one, old-only keys are added |
| `Gencat.FlatDistinct` | glibc-2.27/catgets/gencat.c:937-970 | sorted lists give distinct pairs of set and message number |
| `Gencat.ServedOlds` | glibc-2.27/catgets/gencat.c:1240-1246 | the slots of a written catalog hold exactly its messages, each key once |
| `Gencat.SearchHasRoom` | glibc-2.27/catgets/gencat.c:864-931 | the table chosen by the search, or the single slot it falls back to, has room exactly if a size below UINT_MAX is best or there is at most one message |
| `Gencat.WriteOut` | glibc-2.27/catgets/gencat.c:864-1004 | for any lists: a file is written exactly in that case, and it serves exactly these lists, with the best size |
| `Gencat.ReadBack` | glibc-2.27/catgets/open_catalog.c:257-327 | any host reads a non-empty written catalog back, with its words modulo 2^32 |
| `Gencat.ReadBackEmpty` | glibc-2.27/catgets/open_catalog.c:309-324 | the empty catalog is read beyond the end of the file |
| `Gencat.MergeOld` | glibc-2.27/catgets/gencat.c:1217-1297 | read_old on any file that is opened: the lists become those merged with its slots |
| `Gencat.UpdateMerges` | glibc-2.27/catgets/gencat.c:1217-1297 | for an old file that gencat wrote, on any host, that is the keyed merge with its messages; simple bounds under which it can be written |
| `Gencat.Update` | glibc-2.27/catgets/gencat.c:843-1004 | write_out for any lists and any old file or none: fails exactly if the old file is not opened or there is no table, otherwise writes a file that serves exactly the merge of both, each key once |
| `Gencat.Consult` | glibc-2.27/catgets/catgets.c:88-115 | opening any written file on any host and looking up: the string at the stored offset of a message present and the default for any other; for an empty catalog a failure |
| `Gencat.StoredIsFrom` | glibc-2.27/catgets/catgets.c:101-114 | while the strings take at most 2^32 bytes, these are the texts of the messages |
| `Gencat.Publish` | glibc-2.27/catgets/gencat.c:843-1004 | from the lists, over any old file or none, through a file between any two hosts to catgets: every failure exactly when it happens, otherwise exactly the messages of the merge |
| `Gencat.Compile` | glibc-2.27/catgets/gencat.c:386-1004 | from the input lines, over any old file or none, to catgets, for every sequence of lines; what the answer is, the members below say of the lines |
| `Gencat.NumberedLine` | glibc-2.27/catgets/gencat.c:588-650 | an accepted numbered line has its own number at the end |
| `Gencat.SymbolicLine` | glibc-2.27/catgets/gencat.c:651-677 | an accepted symbolic line has some number at the end |
| `Gencat.EntryLine` | glibc-2.27/catgets/gencat.c:386-805 | every message of the lists is that of an accepted line |
| `Gencat.CompiledAlone` | glibc-2.27/catgets/gencat.c:386-1004 | without an old file, the answer for a set and a number is the text of the accepted line that belongs to this set, as its "$set" line says, and has this number at the end; the default for every pair that no accepted line has |
| `Gencat.AnswersUnderSet` | glibc-2.27/catgets/gencat.c:386-1004 | the text of an accepted numbered line is the answer for its own number and the number of its "$set" line, or set 1 before any "$set" |
| `Gencat.CompiledOver` | glibc-2.27/catgets/gencat.c:386-1004 | over an old file that gencat wrote on any host: the text of the accepted line that belongs to the set and has the number, where an empty one deletes the old message; without a line the old text; otherwise the default |
| `PoolProtocol.NextInv` | threadpool.c:74-254 | every step of producers, workers and adjuster keeps the invariant |
| `PoolProtocol.AlwaysInv` | threadpool.c:74-254 | in every state of every run: queue within its capacity, added == taken + queue, min <= live <= max, live counts the workers that have not left, busy counts those running a task, every task taken is held by one worker or finished |
| `PoolProtocol.TakenInOrder` | threadpool.c:74-254 | what was taken stays taken, in the order of adding: no task is taken twice |
| `PoolProtocol.ThreadsAtMost` | threadpool.c:157-218 | threads on their way out included, there are never more than max_thr_num |
| `PoolProtocol.CreateReturns` | threadpool.c:50-62 | threadpool_create joins its own workers, so it returns if and only if the minimum is zero |
| `PoolRuns.AsksThree` | threadpool.c:165-208 | in every run: a turn of the adjuster asks three threads to leave exactly if, of the threads there were when it looked, fewer than half were busy when it looked again, and there were more than the minimum; otherwise it asks none |
| `PoolRuns.CreatesThree` | threadpool.c:165-198 | a turn creates threads exactly if ten or more tasks were waiting and fewer threads than the maximum alive when it looked: three, or as many as there are slots without a thread |
| `PoolRuns.LeaversAtMost` | threadpool.c:92-105 | in every run, the threads that left and those still asked to are at most three for each turn that found the pool idle |
| `PoolRuns.NoneLeaves` | threadpool.c:157-218 | as long as no turn finds the pool idle, no thread is asked to leave and none does |
| `PoolRuns.NoneCreated` | threadpool.c:157-218 | as long as the adjuster never sees ten tasks, no thread is created |
| `PoolRuns.WokenLeaves` | threadpool.c:89-105 | after a turn that found the pool idle, the next three threads to wake up leave, each exactly if more than the minimum are alive then; later ones do not |
| `PoolRuns.TakesOldest` | threadpool.c:113-125 | a worker that comes for work and stays takes the oldest task nobody has taken, and waits if there is none |
| `PoolRuns.AddPossible` | threadpool.c:221-254 | a task can be added exactly while fewer than the capacity are waiting |
| `PoolRuns.WorkerMoves` | threadpool.c:74-145 | a thread that is not gone can always take its next step |
| `ThreadPool.Pool.constructor` | threadpool.c:5-56 | the initial state |
| `ThreadPool.Pool.Add` | threadpool.c:221-254 | adding at the rear of the ring buffer appends to the queue |
| `ThreadPool.Pool.Take` | threadpool.c:113-125 | taking at the front of the ring buffer removes the oldest task, or the worker waits |
| `ThreadPool.Pool.Enter` | threadpool.c:80-89 | a worker at the top of its loop |
| `ThreadPool.Pool.Wake` | threadpool.c:89-105 | a worker back from its wait leaves only if it is asked to and more than the minimum are alive |
| `ThreadPool.Pool.Begin` | threadpool.c:129-131 | the busy count goes up with the worker |
| `ThreadPool.Pool.Finish` | threadpool.c:138-140 | the busy count goes down with the worker, never below zero |
| `ThreadPool.Pool.Die` | threadpool.c:99-101 | a thread that left is gone |
| `ThreadPool.Pool.Look` | threadpool.c:167-170 | the adjuster reads queue size and live count together |
| `ThreadPool.Pool.LookBusy` | threadpool.c:172-174 | the adjuster reads the busy count later |
| `ThreadPool.Pool.CreateThreads` | threadpool.c:182-196 | threads are created only in free slots, up to three and never beyond the maximum, fewer only when the maximum is reached or no slot is free |
| `ThreadPool.Pool.Grow` | threadpool.c:178-198 | one Grow step: the decision uses the old readings, the bound the current count; PoolRuns.CreatesThree says what that comes to |
| `ThreadPool.Pool.Shrink` | threadpool.c:201-208 | one Shrink step, on the old readings; PoolRuns.AsksThree says what that comes to |
| `Fanout.NextInv` | util.c:231-310 | every step of parent and children keeps the invariant of the hand-over |
| `Fanout.HandOver` | util.c:229-312 | in every run without creation failures: at most one child uses the block, every read gives the child's own index, clients 1 to n are served in order and once, all of them by the end |
| `Fanout.GetsOn` | util.c:229-312 | in every reachable state before the end some step is possible without a creation failing |
| `Fanout.FourEach` | util.c:229-312 | every run ends after four steps for each client and one for the joins, reads apart |
| `Fanout.StuckStep` | util.c:233-244 | after a failed creation nothing can happen, except, for the last client, the join of the thread id that was not set |
| `Fanout.AfterFailure` | util.c:229-312 | over whole runs: the failing client and all later ones are never served; before the last client the failure is the last step and the function never ends; at the last client only the join of the unset thread id can end it |
| `Fanout.AllServed` | util.c:229-312 | when the function ends, all clients have been served if and only if no creation failed |
| `Fanout.Block.LockFor` | util.c:233-233 | the parent takes the mutex |
| `Fanout.Block.WriteIndex` | util.c:234-234 | the parent writes the index while nobody else uses the block |
| `Fanout.Block.CreateChild` | util.c:235-235 | the child starts with the block its own |
| `Fanout.Block.ReadIndex` | util.c:251-309 | a child reads its own index at any time before it unlocks |
| `Fanout.Block.UnlockBy` | util.c:308-310 | the child serves its client and releases the block |
| `Fanout.Block.JoinAll` | util.c:242-244 | after the joins every client has been served, in order |
| `ArgpOptions.PackExact` | glibc-2.27/argp/argp-parse.c:360-368 | a packed value decodes to group and sign-preserved key if and only if the group number is below 127 and the key fits 24 bits with its sign |
| `ArgpConvert.CalcSizes` | glibc-2.27/argp/argp-parse.c:453-478 | the sizes are the groups, three times and once the table entries, and all children |
| `ArgpConvert.InputsAtMost` | glibc-2.27/argp/argp-parse.c:386-395 | no conversion uses more child input slots than calc_sizes counts |
| `ArgpConvert.TableAdd` | glibc-2.27/argp/argp-parse.c:348-372 | a name that is new at its place is declared there first |
| `ArgpTables.Tables.FindLong` | glibc-2.27/argp/argp-parse.c:199-212 | the search finds a name exactly if the table has it |
| `ArgpTables.Tables.PutShort` | glibc-2.27/argp/argp-parse.c:335-346 | a letter and its colons are appended and the string stays terminated |
| `ArgpTables.Tables.PutLong` | glibc-2.27/argp/argp-parse.c:348-372 | a long option, with has_arg and value, is appended unless its name is taken, and the list stays terminated |
| `ArgpTables.Tables.ConvertEntry` | glibc-2.27/argp/argp-parse.c:328-373 | what one entry adds to both tables, depending on the last entry that is no alias |
| `ArgpTables.Tables.ConvertTable` | glibc-2.27/argp/argp-parse.c:325-374 | the loop over a table converts exactly its entries |
| `ArgpTables.Tables.AddGroup` | glibc-2.27/argp/argp-parse.c:376-397 | the record of a group: end of its letters, parent, child inputs |
| `ArgpTables.Tables.ConvertOptions` | glibc-2.27/argp/argp-parse.c:312-411 | the tables hold exactly the groups in preorder: all letters in order, one long option per name from its first declaration, for every group the number of its parent group (or none) and its place among the children, and its input slots; every write is within the arrays |
| `ArgpTables.Tables.Start` | glibc-2.27/argp/argp-parse.c:424-429 | the string starts with the ordering character |
| `ArgpParser.ShortRoomExact` | glibc-2.27/argp/argp-parse.c:490-503 | the allocated short option string is large enough for every tree and flags, except with ARGP_NO_ARGS when every entry takes three characters; then it is one too small |
| `ArgpParser.FullGroups` | glibc-2.27/argp/argp-parse.c:462-469 | the bound of three characters per entry is reached exactly if every entry is a short option with an optional argument |
| `ArgpParser.ShortRoomMissing` | glibc-2.27/argp/argp-parse.c:490-503 | with ARGP_NO_ARGS and no entry at all it is one too small |
| `ArgpParser.ParserInit` | glibc-2.27/argp/argp-parse.c:414-515 | allocation and conversion together: for every tree and all other flags no write leaves the arrays, and the tables are those of the tree; what getopt is told by them, ArgpGetopt and ArgpArguments say |
| `ArgpParser.ChildInput` | glibc-2.27/argp/argp-parse.c:531-546 | the slot a group takes its input from is its own place among its parent's children and within the allocation |
| `ArgpParser.ParseShort` | glibc-2.27/argp/argp-parse.c:736-750 | a character goes to the first group that writes it |
| `ArgpParser.ParseOpt` | glibc-2.27/argp/argp-parse.c:727-758 | a short option other than the colon and the leading character goes to the first group in preorder that declares it, to none if none does; a packed value to its group with its key |
| `ArgpParser.ParseLong` | glibc-2.27/argp/argp-parse.c:727-758 | a long option goes to the first group that declares it, and its key arrives unchanged exactly when it fits |
| `ArgpGetopt.ShortCode` | glibc-2.27/posix/getopt.c:607-698 | exactly what getopt answers for a letter: rejected if it is a colon, a semicolon or not in the option string; for a missing argument that it demands, a colon if the string starts with one and otherwise an error; a long option if it is a W followed by a semicolon; else the letter |
| `ArgpGetopt.HandleLetter` | glibc-2.27/argp/argp-parse.c:788-873 | a letter on the command line through getopt to a group: getopt answers so for the stripped string, which has an ordinary letter exactly if some group declares it; every letter delivered reaches a group, namely its first declarer, or group 0 if it is the leading character; a colon delivered for a missing argument reaches its first declarer exactly if the string does not start with a letter taken for the order, or the group declares it |
| `ArgpGetopt.ArgumentAsked` | glibc-2.27/argp/argp-parse.c:335-346 | exactly when getopt demands an argument or takes a letter for a long option, in terms of the tables: what the first declaring entry says, and which letter follows it |
| `ArgpGetopt.ArgumentsAsDeclared` | glibc-2.27/argp/argp-parse.c:335-346 | unless some group declares a colon or a semicolon as a letter, getopt demands exactly the arguments that the tables require |
| `ArgpArguments.MainEntry` | glibc-2.27/argp/argp-parse.c:325-331 | the entry that an alias takes its argument and flags from: only aliases lie between, and it is no alias unless it is the first of the table |
| `ArgpArguments.LongArgument` | glibc-2.27/argp/argp-parse.c:353-358 | the long option of a name has a required, an optional or no argument exactly as the main entry of its first declaration says |
| `ArgpArguments.LongValue` | glibc-2.27/argp/argp-parse.c:360-368 | its value gives back the group and the key, the entry's own or that of its main entry, if they fit |
| `ArgpArguments.LongAgreesWithLetter` | glibc-2.27/argp/argp-parse.c:335-358 | for an entry that is first with its letter and its name, in a tree without a letter colon or semicolon: the long option requires an argument exactly if getopt demands one for the letter, and takes none exactly if no colon follows the letter |
| `ArgpGetopt.WDisguised` | glibc-2.27/posix/getopt.c:625-652 | letters W and semicolon next to each other: a declared -W is taken for a long option |
| `ArgpGetopt.ColonAsks` | glibc-2.27/posix/getopt.c:653-696 | a letter declared without an argument before a letter colon: getopt demands one |
| `ArgpGetopt.ColonFirst` | glibc-2.27/argp/argp-parse.c:736-750 | in a string that starts with a colon, the first group that writes a colon is the first that declares one |
| `ArgpGetopt.PlusSwallowed` | glibc-2.27/posix/getopt.c:380-411 | a tree whose first letter is taken for the order, so that a colon nobody declares is delivered |
| `ArgpGetopt.PlusAstray` | glibc-2.27/argp/argp-parse.c:736-750 | a tree in which a declared "+" reaches the first group instead |
| `ArgpHelp.MakeHol` | glibc-2.27/argp/argp-help.c:426-495 | the list of a table: all options in order, grouped with their aliases, the letters deduplicated by first occurrence, each entry pointing to its letters |
| `ArgpHelp.HolAppend` | glibc-2.27/argp/argp-help.c:821-911 | appending the list of b to the list of a gives the list of a followed by b |
| `ArgpHelp.ArgpHol` | glibc-2.27/argp/argp-help.c:1350-1369 | the list of a whole tree has the first-occurrence deduplication of all short keys in preorder |
| `ArgpHelp.NextLetter` | glibc-2.27/argp/argp-help.c:886-897 | the next letter of a string is an option's exactly when the option is the first with that letter |
| `ArgpHelp.ShortIterate` | glibc-2.27/argp/argp-help.c:543-566 | iterating an entry yields exactly its options that declare their letter first, and their letters |
| `ArgpHelp.IterateAll` | glibc-2.27/argp/argp-help.c:543-566 | iterating all entries yields every letter of the list once, in order |
| `ArgpHelp.FindChar` | glibc-2.27/argp/argp-help.c:337-346 | found exactly if the character is in the string |
| `ArgpAgreement.AcceptedIsListed` | glibc-2.27/argp/argp-parse.c:312-411 | help lists every letter that the parser accepts |
| `ArgpAgreement.HelpAgrees` | glibc-2.27/argp/argp-help.c:426-495 | help lists exactly the accepted letters if and only if every alias of a documentation entry has a letter that some option has as well |
| `ArgpAgreement.StrayAlias` | glibc-2.27/argp/argp-help.c:426-495 | a tree with an alias whose letter is listed and not accepted |

## Left out

- Sockets, processes, directory scanning, recording and playback (`util.c`, `server.c`, `client.c`, `sender.c`, `playback.c`, `recordData.c`): sending is one opaque step of the hand-over.
- Logging, configuration files and hexadecimal conversion (`log.c`, `ConfigFile.c`, `jinzhiConvert.c`): they would only add easy members.
- Thread-pool shutdown, destruction and freeing of task arguments, and liveness (only that a thread can always take its next step is stated): a wakeup can be consumed by a leaving worker, and adding after shutdown is not excluded by the code.
- The pool and fan-out models take pthread calls as succeeding (except for `CreateFails`), the test whether a thread is alive as exact, and the unlock by another thread than the locker as releasing the mutex.
- Line splitting, quoting, escape normalisation, character conversion, `$delset` and the header file in gencat: the catalog model starts from the parsed lines and ends with the file.
- The overflow of `number * set_number` in 32-bit signed arithmetic, and of the products of header fields in `open_catalog.c`: products are unbounded.
- Gencat.Consult: says which string is answered for set and message numbers below 2^32, as every `int` of the source is; the model's numbers are unbounded, here and in `Gencat.Publish` and `Gencat.Compile`.
- NLSPATH expansion, mmap and file access in `open_catalog.c`: the reader starts from the file contents.
- ArgpOptions.IsShort: `isprint` is the one of the C locale, characters 32 to 126.
- Abbreviated long options, the order of arguments, what `-W` does with its long option, and option arguments inside getopt: only the initialisation of the option string and what getopt answers for one letter are modelled, and a long option arrives as its full name.
- Help formatting, sorting of entries, clusters and hidden options in `argp-help.c`.
- The MD5, SHA-256 and SHA-512 methods of crypt, the FIPS mode, locking of the static tables, and the erasure of local copies in `glibc-2.27/crypt`.
- The rest of the bundled library, benchmarks and tests.
