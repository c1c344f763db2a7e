# Bit-level codecs, streaming primitives and state machines of the game server

This project models the parts of the server where single bits, counters and interleavings
decide, and proves what they are for.

- **The packet compressor** (`Zlib`, `CodeTree`). Symbols are packed as variable-length codes,
  least significant bit first, through a 64-bit accumulator; the decoder looks up eight bits at
  a time and walks the tree for longer codes. The table files are data that is not part of this
  model, so what they must satisfy is a predicate: `TableFile` (the words of a finite binary tree,
  laid out as in memory, which loading is proved to turn into a `JumpTable`) and `CodesMatch`
  (every code leads from the root to its own symbol). For every such table, decompression undoes
  compression, and on *every* payload the fast decoder does what a one-bit-at-a-time reference
  decoder does, but for at most one symbol at a code cut off by the payload's end.
- **Bit fields and name codecs** (`BitPacking`, `Linkshell`, `Signature`, `Soultrapper`). Fields
  are described by the bits of the byte string, `HighFirst` and `LowFirst`, and every codec has an
  exact round-trip theorem: which strings come back, and what comes back of the others.
- **MD5 and the Blowfish variant** (`Md5Process`, `BlockStream`, `Md5`, `Blowfish`). The streaming
  and unrolled forms are proved equal to RFC 1321 as a fold over blocks; the four-way interleaved
  cipher equals the scalar one and both directions undo each other for all tables.
- **Smaller state machines**: the JSON log printer against a parser written from RFC 8259
  (`JsonText`, `LoggingJson`), the generation-stamped settings cache on one thread and under every
  interleaving (`Settings`, `SettingsThreads`), the interval timer (`Scheduler`), the Base32
  decoder and the one-time codes (`Base32`, `Totp`), the ring buffer (`CircularBuffers`), the
  calendar (`VanaTime`), and the login server's commands over its account, one-time-password and
  trust-token tables (`AccountTables`, `AuthSession`, `AuthServer`, with the theorems in
  `AuthSafety`, `AuthRuns`, `AuthCommands`, `AuthTokens`, `AuthTrust`, `AuthAnswers`,
  `AuthSecrets`).

`Bits` holds the arithmetic of words: unbounded numbers with digit-wise `Shl`, `Shr`, `And`, `Or`,
`Xor`, where a shift left names the width it truncates to and sums are taken modulo 2^32
explicitly. Buffers are arrays that the methods write in place; objects whose methods update them
are classes. A class method's contract gives the new state by a function of the old one, and the
theorems are lemmas about that function. Functions that method and theorem share have laws of their
own, in terms of bytes, characters and guards.

## Findings

Where the code does not do what its documentation or its use suggests, the model follows the code
and a lemma says exactly when.

- `EncodeStringSignature` loses the rest of a signature whose packed form has a zero byte in the
  middle, because it is copied with `strncpy`: `Signature.RoundTrip` gives the exact condition on
  neighbouring characters and what comes back of any signature, `Signature.CollisionExample` the
  signature "AF0", which comes back as "AF".
- `get_monthday` is one low on every midnight, and `get_month` on the midnight that begins a month:
  `VanaTime.ReadingIs`. `MonthdayExact` and `MonthExact` also give the early dates that go wrong.
- `intervalOnMainThread` is documented to jitter its first run; in the code the phase moves only
  the grid of the deadlines, and the first call happens at once, so it comes a phase later only when
  the phase is zero (`Scheduler.IntervalOnMainThread`).
- The settings cache is exact until a memo is 2^64 generations old: `SettingsThreads.StaleIff`
  says of every run which writes a `get` misses, `SettingsThreads.StaleAfterWrapping` shows such a
  run.
- A password change for an account that is both banned and normal replies with an error and then
  goes on to change the password: `AuthAnswers.BothAnswersIff` gives the exact condition,
  `AuthAnswers.BothAnswersExample` an account of status 3.

## Model

| member | source | states |
|---|---|---|
| `Zlib.Codec.PopulateJumpTable` | src/common/zlib.cpp:114-141 | every table word above 0xff becomes the index of the cell it points to, every other word stays data |
| `Zlib.StoresPopulated` | src/common/zlib.cpp:114-141 | translating the words of a file one by one turns the tree they spell, addresses and all, into the same tree of the jump table |
| `Zlib.FileIsJumpTable` | src/common/zlib.cpp:114-141 | a table file that holds a tree becomes a jump table for that tree, with the root at index 1 |
| `Zlib.Codec.Init` | src/common/zlib.cpp:183-203 | loading establishes what compression and decompression rely on: the jump table of the file's tree, and a decode table that agrees with it on every byte; -1 exactly when a file is missing |
| `CodeTree.ToInt8` | src/common/zlib.cpp:224-239 | reading a byte as `int8` gives the number congruent to it between -128 and 127 |
| `CodeTree.EntryOfByte` | src/common/zlib.cpp:224-241 | which entries of the table are a byte's: below 128 and from 128 up, its length and its code |
| `Zlib.Codec.BuildDecodeTable` | src/common/zlib.cpp:157-179 | entry b holds (symbol, length) exactly when walking the bits of b, least significant first, reaches a leaf within eight steps, for all 256 b |
| `Zlib.Codec.LookUp` | src/common/zlib.cpp:162-175 | the at most eight steps of the walk for one byte end where the tree walk ends |
| `Zlib.Codec.Compress` | src/common/zlib.cpp:210-263 | a non-empty input succeeds exactly when its code bits are fewer than 8*(out_sz-1); on success the payload is the concatenation of the codes, padded with zeros, the flag byte is 1, the result is the bit count plus 8, and nothing past it changes; otherwise which failure it is |
| `Zlib.Codec.PackAll` | src/common/zlib.cpp:222-253 | the loop stops exactly at the first symbol that does not fit, and what it has written and accumulated is the concatenation so far |
| `Zlib.Codec.EmitCode` | src/common/zlib.cpp:239-252 | one code appended to the accumulator appends its bits to the stream, and no set bit of the 64-bit word is lost |
| `Zlib.Codec.Finish` | src/common/zlib.cpp:255-262 | the last partial byte carries the remaining bits and zero spare bits |
| `Zlib.PayloadBit` | src/common/zlib.cpp:305-317 | the bit that the decoder picks at a position is that bit of the payload, least significant first |
| `CodeTree.WalkCode` | src/common/zlib.cpp:210-263 | walking a symbol's code from the root reaches that symbol's leaf after exactly the code's length |
| `CodeTree.DecodeCodes` | src/common/zlib.cpp:210-322 | the one-bit-at-a-time decoder gives back every text from the concatenation of its codes, cut to the room there is, with no bits left over |
| `CodeTree.WalkEnough` | src/common/zlib.cpp:305-318 | as many bits as the tree is high always reach a leaf |
| `CodeTree.WalkShort` | src/common/zlib.cpp:305-318 | a walk that runs out of bits on a prefix needs more bits than the prefix has |
| `Zlib.PeekWord` | src/common/zlib.cpp:292-299 | the eight-bit look-ahead, masked at the payload's last byte, is the next payload bits followed by zeros |
| `Zlib.WholeCode` | src/common/zlib.cpp:290-319 | while a whole code is left, look-ahead and fall-back agree with the one-bit walk over the payload |
| `Zlib.CutCode` | src/common/zlib.cpp:290-319 | when the payload ends inside a code, the one symbol found reaches past its end |
| `Zlib.Turn` | src/common/zlib.cpp:290-319 | one turn of the table-driven loop does what the one-bit decoder does up to its next symbol |
| `Zlib.Finished` | src/common/zlib.cpp:290-322 | when the loop stops, the output is what the one-bit decoder gives, or that and exactly one symbol more when the payload ended inside a code and room remained |
| `Zlib.Codec.Decompress` | src/common/zlib.cpp:268-322 | for every payload, not only compressed ones: the flag byte is checked, and the output is what the one-bit decoder gives within out_sz, plus the one extra symbol of a cut code; nothing beyond it changes |
| `Zlib.Codec.DecodeAll` | src/common/zlib.cpp:284-321 | the loop with its cursor in 32 bits, for every payload |
| `Zlib.Codec.NextSymbol` | src/common/zlib.cpp:292-318 | table hit or tree walk, the symbol and its length are the ones the walk over the readable bits gives |
| `Zlib.PackedDecodes` | src/common/zlib.cpp:210-322 | a successful compression, read by the one-bit decoder, is the input, cut to the room there is |
| `Zlib.Codec.RoundTrip` | src/common/zlib.cpp:210-322 | decompressing what was compressed, with in_sz = ret - 8 and enough room, gives exactly the input and its count; compression succeeds exactly when the codes fit |
| `BitPacking.PackBitsBE` | src/common/utils.cpp:277-299 | the low bits of the value stand at the bit position, counted from the least significant bit of each byte, and no other bit changes |
| `BitPacking.UnpackBitsBE` | src/common/utils.cpp:306-349 | reads back the field at the bit position for every width of word the field needs; zero when it spans more than 64 bits from its byte |
| `BitPacking.PackBitsLE` | src/common/utils.cpp:356-406 | through the reversed scratch copy, the low bits of the value stand most significant first at the stream position, and no other bit changes; a field of more than 64 bits from its byte writes nothing |
| `BitPacking.UnpackBitsLE` | src/common/utils.cpp:413-467 | reads the most-significant-first field at the stream position; zero when it spans more than 64 bits from its byte |
| `BitPacking.BitMerged` | src/common/utils.cpp:277-299 | masking and or-ing puts the field into a word and leaves its other bits |
| `BitPacking.PackedBackwards` | src/common/utils.cpp:356-406 | writing low bits first into the reversed bytes is writing high bits first into the bytes |
| `BitPacking.ReadBackwards` | src/common/utils.cpp:413-467 | reading low bits first from the reversed bytes is reading high bits first from the bytes |
| `BitPacking.ReadsHighUnique` | src/common/utils.cpp:413-467 | a field has one reading |
| `BitPacking.ReadBack` | src/common/utils.cpp:356-467 | a field just written reads back as the low bits of the value |
| `BitPacking.ReadElsewhere` | src/common/utils.cpp:356-467 | a field that shares no bit with the one written reads as before |
| `Linkshell.EncodeStringLinkshell` | src/common/utils.cpp:469-502 | the 20 bytes hold the six-bit codes of the first 20 characters, the terminator and zeros; the terminator has only its upper four bits when the length is 2 modulo 4 |
| `Linkshell.DecodeStringLinkshell` | src/common/utils.cpp:504-544 | the text read from the sextets, with the terminator and the zero that takes a character back |
| `Linkshell.CodeOrder` | src/common/utils.cpp:479-493 | the codes count the lower-case letters, the upper-case letters and the digits from 1, and everything else is 0 |
| `Linkshell.Kept` | src/common/utils.cpp:475-477 | a name within twenty characters is kept whole, a longer one is cut exactly there |
| `Linkshell.SextetCount` | src/common/utils.cpp:508-508 | as many whole sextets as there are, up to twenty |
| `Linkshell.ReadTerminator` | src/common/utils.cpp:495-541 | the four-bit terminator reads as a '7' that the next zero erases, so names of every length end where they should |
| `Linkshell.RoundTrip` | src/common/utils.cpp:469-544 | decoding the encoding of any string gives what Survivor says |
| `Linkshell.Survivor` | src/common/utils.cpp:469-544 | what survives a round trip is a prefix, and the whole string exactly when it is all letters and digits |
| `Signature.EncodeStringSignature` | src/common/utils.cpp:546-571 | the packed codes, copied as a C string: up to the first zero byte |
| `Signature.DecodeStringSignature` | src/common/utils.cpp:573-596 | the text whose sextets the twelve bytes hold |
| `Signature.CodeOrder` | src/common/utils.cpp:548-566 | the codes count the digits, the upper-case letters and the lower-case letters from 1, and everything else is 0 |
| `Signature.Kept` | src/common/utils.cpp:546-552 | a signature within fifteen characters is kept whole, a longer one is cut exactly there |
| `Signature.GapByte` | src/common/utils.cpp:546-571 | the middle byte of a group of three is zero exactly when two neighbouring characters leave no bit in it |
| `Signature.RoundTrip` | src/common/utils.cpp:546-596 | the part before the cut comes back, and it is the whole if and only if the signature is all letters and digits and no two neighbours collide in a zero byte |
| `Signature.Cut` | src/common/utils.cpp:546-596 | the first character that is no letter or digit, or stands second in a collision; the length exactly when there is none |
| `Signature.ComesBack` | src/common/utils.cpp:546-596 | what comes back of every signature is exactly the part before its cut |
| `Signature.RoundTripFails` | src/common/utils.cpp:546-596 | a signature that does not survive comes back as a proper prefix, the part before its cut |
| `Signature.CollisionExample` | src/common/utils.cpp:566-571 | "AF0" is an alphanumeric signature that comes back as "AF" |
| `Soultrapper.PackSoultrapperName` | src/common/utils.cpp:600-648 | output byte m is made of its two neighbouring seven-bit characters, and nothing after the 14 bytes changes |
| `Soultrapper.TrimmedCuts` | src/common/utils.cpp:600-613 | characters past the fifteenth never count, whatever is stripped before them |
| `Soultrapper.TrimmedStrips` | src/common/utils.cpp:600-613 | within fifteen characters an underscore may be left out |
| `Soultrapper.TrimmedKeeps` | src/common/utils.cpp:600-613 | and nothing else is lost |
| `Soultrapper.UnpackSoultrapperName` | src/common/utils.cpp:651-693 | the characters read seven bits at a time, up to the first outside '0'..'z' |
| `Soultrapper.ReadBit` | src/common/utils.cpp:662-682 | the shifting cursor delivers the bits of the 14 bytes, most significant first, and ends after bit 112 |
| `Soultrapper.PackedBit` | src/common/utils.cpp:600-648 | bit p of the packed name is bit 6 - p % 7 of character p / 7, and zero behind the name |
| `Soultrapper.RenderedIs` | src/common/utils.cpp:651-693 | reading on from character k gives the printable prefix from there |
| `Soultrapper.RoundTrip` | src/common/utils.cpp:600-693 | for every seven-bit name: unpacking the packing is the longest prefix, of the name cut to 15 and stripped of underscores, whose characters lie in '0'..'z' |
| `Soultrapper.PrintablePrefix` | src/common/utils.cpp:651-693 | the longest prefix within the range: it is one, and the next character is outside |
| `Md5.GetIsLoad` | src/common/md52.cpp:25-31 | assembling four bytes with shifts is their little-endian value |
| `Md5.InitialBytes` | src/common/md52.cpp:46-49 | the registers start as the bytes that section 3.3 of RFC 1321 lists |
| `Md5.DigestSpells` | src/common/md52.cpp:250-253 | the sixteen bytes spell the four registers in order, low-order byte first |
| `Md5Process.Add` | src/common/md52.cpp:79-82 | sums are exact but for a multiple of 2^32 |
| `Md5Process.SameFunction` | src/common/md52.cpp:89-152 | the rewritten round functions are those of section 3.4 of RFC 1321, on every three words |
| `Md5Process.SameRotation` | src/common/md52.cpp:77 | the rotation macro rotates |
| `Md5Process.MacroMeaning` | src/common/md52.cpp:77-82 | the step macro, with its sum in another order, is the step of RFC 1321 |
| `Md5Process.RunIsRun` | src/common/md52.cpp:52-177 | any number of steps with the source's macro are as many steps of RFC 1321 |
| `Md5Process.Round1` | src/common/md52.cpp:89-108 | the first sixteen unrolled steps, with their rotating names and literal constants, are steps 0..15 |
| `Md5Process.Round2` | src/common/md52.cpp:110-129 | steps 16..31 |
| `Md5Process.Round3` | src/common/md52.cpp:131-150 | steps 32..47 |
| `Md5Process.Round4` | src/common/md52.cpp:152-171 | steps 48..63 |
| `Md5.Md5Context.Process` | src/common/md52.cpp:52-177 | one block is folded into the state as in section 3.4 of RFC 1321 |
| `Md5.Md5Context.constructor` | src/common/md52.cpp:41-50 | the start: the state of section 3.3 of RFC 1321 and nothing counted |
| `Md5.Md5Context.Update` | src/common/md52.cpp:181-223 | whatever the length of a piece, the state is the fold of the whole blocks seen, the tail is buffered, and the two-word counter is the byte count modulo 2^64 |
| `Md5.Md5Context.Count` | src/common/md52.cpp:194-200 | the carry into the high word is exact modulo 2^64 |
| `Md5.BitCount` | src/common/md52.cpp:237-238 | the two length words are the bit count modulo 2^64 |
| `Md5.PadCount` | src/common/md52.cpp:243-244 | the pad length brings every count to 56 modulo 64, with at least one byte |
| `BlockStream.BlockDone` | src/common/md52.cpp:181-223 | a whole block more keeps the fold in step with the bytes seen |
| `BlockStream.HeldBack` | src/common/md52.cpp:181-223 | bytes held back keep the fold in step with the bytes seen |
| `Md5.Md5Context.Finish` | src/common/md52.cpp:230-254 | the digest is the block fold over everything seen, padded as in sections 3.1 and 3.2 of RFC 1321 |
| `Md5.Md5OfChunks` | src/common/md52.cpp:181-254 | however a message is cut into pieces, the digest is that of the message |
| `Md5.Md5` | src/common/md52.cpp:260-266 | the one-call form gives the digest of the first size bytes |
| `Blowfish.BlowfishEncipher` | src/common/blowfish.cpp:361-391 | the alternating loop is sixteen rounds of the network and the final exchange |
| `Blowfish.BlowfishDecipher` | src/common/blowfish.cpp:457-490 | the same with the subkeys from the far end |
| `Blowfish.TTOfBytes` | src/common/blowfish.cpp:290-293 | the round function from the bytes of its word: boxes 0 and 2 in full, boxes 1 and 3 by their low bits, each indexed by its own byte |
| `Blowfish.XorWordBit` | src/common/blowfish.cpp:361-391 | every bit of a word is flipped exactly where the key has a one |
| `Blowfish.SixteenRounds` | src/common/blowfish.cpp:361-391 | enciphering is sixteen rounds, each told by the words it makes, the last exchange and the last two words of P |
| `Blowfish.DecipherEncipher` | src/common/blowfish.cpp:361-490 | deciphering undoes enciphering, for every P and S and every block |
| `Blowfish.EncipherDecipher` | src/common/blowfish.cpp:361-490 | enciphering undoes deciphering |
| `Blowfish.DecipherIsEncipher` | src/common/blowfish.cpp:361-490 | deciphering is enciphering with P reversed |
| `Blowfish.EncipherBlocks` | src/common/blowfish.cpp:541-582 | four blocks at a time and then one by one: every block is enciphered as on its own, for any count, and the rest of the array stays |
| `Blowfish.DecipherBlocks` | src/common/blowfish.cpp:496-537 | every block is deciphered as on its own, for any count, and the rest of the array stays |
| `Blowfish.EncipherFour` | src/common/blowfish.cpp:544-576 | the interleaved rounds of four blocks are the rounds of each |
| `Blowfish.DecipherFour` | src/common/blowfish.cpp:499-531 | the interleaved rounds of four blocks are the rounds of each |
| `Blowfish.BuffersRoundTrip` | src/common/blowfish.cpp:496-582 | on whole buffers, deciphering undoes enciphering |
| `Blowfish.BuffersRoundTripBack` | src/common/blowfish.cpp:496-582 | on whole buffers, enciphering undoes deciphering |
| `Blowfish.FoldKey` | src/common/blowfish.cpp:599-612 | four key bytes, sign-extended and read round and round, make the word that P is XORed with |
| `Blowfish.SignExtended` | src/common/blowfish.cpp:604-604 | a key byte as a word: congruent to it modulo 256, the upper 24 bits all equal to its sign |
| `Blowfish.ShiftInBit` | src/common/blowfish.cpp:604-604 | bit by bit, what a key byte does to the word: it takes the low eight bits, the others move up, and a negative byte sets them all |
| `Blowfish.TableWordOfBytes` | src/common/blowfish.cpp:594-595 | a word of the fixed table from its four bytes |
| `Blowfish.BlowfishInit` | src/common/blowfish.cpp:584-637 | the tables are the key schedule of subkey and key alone, whatever they held before: words folded in, then P and S overwritten by chained encipherments under the evolving tables |
| `Blowfish.LinkIs` | src/common/blowfish.cpp:617-634 | each block of the chain is the one before it, enciphered under the tables as filled by then |
| `Blowfish.PFilled` | src/common/blowfish.cpp:617-623 | after n links, which words of P hold which link and which are still the folded ones |
| `Blowfish.SFilled` | src/common/blowfish.cpp:625-634 | the same for S |
| `Blowfish.AllFilled` | src/common/blowfish.cpp:617-634 | in the end every word of both tables is a link's, two words a link in the order of the tables |
| `Blowfish.SameKeyBytes` | src/common/blowfish.cpp:584-637 | keys that agree, read round and round, on 72 byte positions give the same tables |
| `Blowfish.RepeatedKey` | src/common/blowfish.cpp:584-637 | a key and the key written twice give the same tables |
| `LoggingJson.Basename` | src/common/logging_json.cpp:40-44 | the part after the last slash of either kind |
| `LoggingJson.TimeStamp` | src/common/logging_json.cpp:147-160 | the moment, a point, three digits whose value is the milliseconds, and Z |
| `LoggingJson.MemoryBuffer.AppendEscaped` | src/common/logging_json.cpp:56-95 | appends the escaped characters of a string in order |
| `LoggingJson.MemoryBuffer.AppendFields` | src/common/logging_json.cpp:104-117 | appends the printed fields in order, with a comma before each but the first |
| `LoggingJson.MemoryBuffer.AppendFieldValue` | src/common/logging_json.cpp:119-141 | appends the printed value, subfields and all |
| `LoggingJson.MemoryBuffer.RenderJsonLine` | src/common/logging_json.cpp:145-172 | appends exactly the printed form of the record's tree, though only the strings pass through the escaper |
| `LoggingJson.ReadText` | src/common/logging_json.cpp:56-95 | a JSON string reader (section 7 of RFC 8259) gives back every string from its escaped form |
| `LoggingJson.ReadNumber` | src/common/logging_json.cpp:133-136 | every integer reads back from its decimal form |
| `LoggingJson.ReadValue` | src/common/logging_json.cpp:119-141 | every value reads back, leaving what follows unread |
| `LoggingJson.ReadFields` | src/common/logging_json.cpp:104-117 | the fields of every object read back in order |
| `LoggingJson.RoundTrip` | src/common/logging_json.cpp:56-141 | parsing the printed text of any tree of strings, integers, booleans and subfields by sections 4 and 7 of RFC 8259 gives the same tree, in the same order, to the end of the text |
| `LoggingJson.ValuePrintable` | src/common/logging_json.cpp:56-141 | no control character is printed, so a record cannot break its line |
| `LoggingJson.LineReadsBack` | src/common/logging_json.cpp:145-172 | a log line reads back as the record and the logging context, in order, and is one line |
| `LoggingJson.LineSays` | src/common/logging_json.cpp:145-172 | what a reader finds under the four keys of a record, whatever the context adds |
| `Settings.Reader.Get` | src/common/settings.h:75-193 | on one thread a get returns what getUncached would, provided the memo is fewer than 2^64 generations old, and memoizes it with the generation |
| `Settings.Reader.Set` | src/common/settings.h:200-206 | the value is stored, the generation advances modulo 2^64, and every memo is thereby out of date |
| `Settings.Reader.GetUncached` | src/common/settings.h:75-165 | a key that is set gives its converted value, any other the default |
| `SettingsThreads.InvHolds` | src/common/settings.h:167-206 | in every interleaving, every memo was read from the map after its stamp was the generation |
| `SettingsThreads.AnswerIs` | src/common/settings.h:167-206 | in every run, what a get answers: the last write its memo saw, exactly if the generation has come round to the memo's stamp, and else the last write there is |
| `SettingsThreads.StaleIff` | src/common/settings.h:167-206 | in every run, a get misses an earlier write of its key if and only if it is served from a memo that was read before that write |
| `SettingsThreads.GetIsFresh` | src/common/settings.h:167-206 | a get that starts after a write was published never returns an older value of that key, as long as the reader's own memo is fewer than 2^64 generations old |
| `SettingsThreads.StoreIsNewest` | src/common/settings.h:200-206 | the map holds of each key the value last written |
| `SettingsThreads.StaleAfterWrapping` | src/common/settings.h:167-206 | such runs exist: of the runs that rewrite a key and publish it by m generations, those with m a multiple of 2^64 read the old value, and only those |
| `Scheduler.IntervalOnMainThread` | src/common/scheduler.h:424-453 | the loop against any clock: the first call at the start, a phase later only when the phase is zero; every deadline a period after the last or at the end of an overrunning call, every later call not before its deadline |
| `Scheduler.CallsApart` | src/common/scheduler.h:424-453 | of any calls in a row, all but the first are at least a period apart |
| `Scheduler.WindowBound` | src/common/scheduler.h:424-453 | in every run, a window of length W sees at most 2 + floor(W/D) calls |
| `Scheduler.BoundReached` | src/common/scheduler.h:424-453 | for every period and width there is a run of the loop that reaches the bound |
| `Scheduler.GridShift` | src/common/scheduler.h:429-447 | the k-th deadline is start + phase + k*D if and only if no call before it overran, and never earlier |
| `Scheduler.NoDrift` | src/common/scheduler.h:429-447 | every deadline is on the exact grid counted from the last overrun |
| `Base32.Base32Decode` | src/login/otp_helpers.h:38-86 | fails exactly on a character outside the alphabet; otherwise the bytes are the quintets' bits, whole bytes only, so the wrapping 32-bit accumulator never corrupts one |
| `Base32.RoundTrip` | src/login/otp_helpers.h:38-86 | decoding inverts the encoding of section 6 of RFC 4648 for every byte string |
| `Base32.CaseInsensitive` | src/login/otp_helpers.h:61-69 | changing the case of any letters changes neither the values nor whether the text decodes |
| `Base32.AlphabetIs` | src/login/otp_helpers.h:40-55 | the values 0 to 31 are the letters A to Z and the digits 2 to 7, in order |
| `Base32.CountsIff` | src/login/otp_helpers.h:61-73 | the characters that may stand in a text: the alphabet, lower-case letters and the four separators |
| `Base32.SeparatorInsensitive` | src/login/otp_helpers.h:63-66 | an equals sign, blank, dash or underscore inserted anywhere does not matter |
| `AuthServer.Server.ValidatePassword` | src/login/auth_session.cpp:611-657 | what the check answers, and the re-hashing of a password still stored in the old format |
| `AuthServer.Server.ValidateTrustToken` | src/login/otp_helpers.h:333-350 | valid exactly for a well-formed, live token of the account; its expired tokens are deleted |
| `AuthServer.Server.SaveTrustToken` | src/login/otp_helpers.h:324-331 | expired tokens of the account deleted, the digest inserted with thirty days to live |
| `AuthServer.Server.LogIn` | src/login/auth_session.cpp:191-328 | the login command, branch by branch, on the tables |
| `AuthServer.Server.CreateAccount` | src/login/auth_session.cpp:329-399 | account creation with the next free id |
| `AuthServer.Server.ChangeUserPassword` | src/login/auth_session.cpp:400-465 | the password change, including its second reply for a banned account that is also normal |
| `AuthServer.Server.RemoveTotpSecret` | src/login/auth_session.cpp:494-526 | taking down the second factor by code or recovery code |
| `AuthServer.Server.Read` | src/login/auth_session.cpp:99-591 | one request: the tables and replies are those of the step function the theorems are about |
| `AccountTables.MaxId` | src/login/auth_session.cpp:350-361 | no id in use is larger than the one a new account follows |
| `AccountTables.NextId` | src/login/auth_session.cpp:350-361 | at least 1000, above every id in use, and the very next one when it is above 1000 |
| `AccountTables.StatusBits` | src/login/auth_session.h:92-96 | normal and banned are the bits 0x01 and 0x02 of the status |
| `AccountTables.IsBcrypt` | src/login/auth_session.cpp:39-46 | sixty characters that begin with one of four version marks |
| `AuthSession.IsMalformed` | src/login/login_helpers.cpp:290-306 | well formed is from one to the limit of printable characters |
| `AuthSession.SameLower` | src/login/auth_session.cpp:507-509 | two characters count as the same if they are, or are one letter in either case |
| `AuthSafety.PasswordOnly` | src/login/auth_session.cpp:611-657 | checking a password changes nothing but the stored form of that login's password |
| `AuthSafety.StepFrame` | src/login/auth_session.cpp:99-591 | every command keeps the tables safe - ids and logins unique, every trust token's account with a validated second factor - and touches nothing of any other account |
| `AuthTokens.RunSafe` | src/login/auth_session.cpp:99-591 | so every run does |
| `AuthRuns.LetsInIff` | src/login/auth_session.cpp:191-328 | a session is given if and only if password, status and, where set up, second factor allow it; the reply then is exactly the account, the hash and the token due |
| `AuthRuns.ClearsTokens` | src/login/auth_session.cpp:400-525 | after a successful password change or removal of the second factor the account holds no trust token, and the new password or the missing row is in the tables |
| `AuthCommands.NotWellFormed` | src/login/auth_session.cpp:158-184 | a request of another version, or with a malformed login or password, changes nothing |
| `AuthCommands.PasswordStoredAnew` | src/login/auth_session.cpp:626-654 | the stored password changes exactly if it was right and in the old format |
| `AuthCommands.LoginRefused` | src/login/auth_session.cpp:191-258 | a login that is not let in is refused for the first reason there is, and records no session |
| `AuthCommands.SessionRecorded` | src/login/auth_session.cpp:283-326 | a login that is let in records its session for the account |
| `AuthCommands.BannedLoginPurges` | src/login/auth_session.cpp:205-215 | the refused login of a banned account takes its tokens away |
| `AuthCommands.CreateAnswerIs` | src/login/auth_session.cpp:329-399 | what a creation is answered, for every table, and that only success changes it |
| `AuthCommands.RemoveIff` | src/login/auth_session.cpp:494-526 | the second factor is taken down if and only if the password is right and the code is that of the secret or, in any case, the recovery code; otherwise it and the tokens stay |
| `AuthCommands.SetUpIff` | src/login/auth_session.cpp:466-492 | a new secret is stored and handed out if and only if the password is right and none is validated |
| `AuthCommands.RegenerateIff` | src/login/auth_session.cpp:527-556 | the recovery code is replaced if and only if the password and the code or old recovery code are right and a code is asked for |
| `AuthCommands.VerifyIff` | src/login/auth_session.cpp:557-584 | the second factor is turned on if and only if the password and the code are right |
| `AuthTokens.StepTokens` | src/login/auth_session.cpp:191-328 | a token in the table was there before, or the step was an admitted, trusted login of its account |
| `AuthTokens.SecretKept` | src/login/auth_session.cpp:466-591 | while an account holds a token, no command replaces its secret |
| `AuthTokens.TokenIssued` | src/login/auth_session.cpp:191-328 | every token of every run was issued by a login of its account exactly thirty days before it expires |
| `AuthTokens.TokenTraced` | src/login/auth_session.cpp:191-525 | behind every token of every run stands a login with the code of the account's secret, and since then neither was the password changed nor the second factor removed or replaced |
| `AuthTrust.ToHexString` | src/login/otp_helpers.h:278-289 | every byte becomes its two digits, the high-order one first |
| `AuthTrust.TokenText` | src/login/otp_helpers.h:291-322 | the text of thirty-two random bytes is in the format that a lookup asks for |
| `AuthTrust.TokenTextUnique` | src/login/otp_helpers.h:278-289 | different bytes make different texts |
| `AuthTrust.TokenSaved` | src/login/auth_session.cpp:301-313 | the token a login answers with is in the table and live for exactly thirty days |
| `AuthTrust.TokenLogsIn` | src/login/auth_session.cpp:191-328 | across two commands: with that token and no code, and a password that still opens the account, the next login is let in if and only if it comes within thirty days |
| `AuthTrust.LiveTokenStaysIff` | src/login/auth_session.cpp:99-591 | a live token is gone after a request if and only if it is the account's own and the request purges them |
| `AuthTrust.ExpiredDropped` | src/login/otp_helpers.h:324-350 | a login that looks up a token leaves no expired token of its account |
| `AuthTrust.TokenInTime` | src/login/auth_session.cpp:191-328 | in every run, a login that a token opens comes less than thirty days after the login that issued it |
| `AuthSecrets.RunSecrets` | src/login/otp_helpers.h:148-217 | in every run that draws its secrets as the server does, no stored secret is ever anything else |
| `AuthSecrets.SecretDecodes` | src/login/otp_helpers.h:134-146 | so every secret that a command looks up decodes, and computing its code never fails inside a command |
| `AuthSecrets.CodeOpensAgain` | src/login/otp_helpers.h:134-146 | a code is not used up: whatever runs in between, while the secret stays the code opens again within the same step of thirty seconds |
| `AuthAnswers.NextIdFree` | src/login/auth_session.cpp:350-361 | the next id is in use if and only if the ids have run to the end of 32 bits and 1000 is taken |
| `AuthAnswers.CreatedAccount` | src/login/auth_session.cpp:329-399 | an account is created if and only if creation is enabled, the login is new and the id free; it then opens under an id of at least 1000 that nobody had |
| `AuthAnswers.ChangeSucceedsIff` | src/login/auth_session.cpp:400-465 | a password change answers success if and only if the password opens the account, its status is normal, the second factor agrees where set up, and the new password is not empty |
| `AuthAnswers.BothAnswersIff` | src/login/auth_session.cpp:421-459 | it answers an error and then success if and only if, on top of that, the account is banned |
| `AuthAnswers.BothAnswersExample` | src/login/auth_session.cpp:421-459 | an account of status 3 gets both answers and its new password is stored |
| `AuthAnswers.FirstLoginTakesCode` | src/login/auth_session.cpp:191-584 | across two commands: the first login after the second factor was turned on takes the code of its secret |
| `AuthAnswers.EnrolmentTakesItsSecret` | src/login/auth_session.cpp:191-584 | across three commands: a secret handed out and then verified is the one whose code the next login takes |
| `AuthAnswers.RecoveryCodeRemoves` | src/login/auth_session.cpp:494-555 | across two commands: a recovery code just regenerated takes the second factor down, whatever the letter case |
| `Totp.CounterBytes` | src/login/otp_helpers.h:91-98 | the eight bytes spell the counter in network order |
| `Totp.Truncate` | src/login/otp_helpers.h:103-107 | shifts and masks are the dynamic truncation of section 5.3 of RFC 4226 |
| `Totp.SixDigits` | src/login/otp_helpers.h:109-113 | six zero-padded digits spell every number below a million |
| `Totp.GenerateTotp` | src/login/otp_helpers.h:88-114 | fails exactly where the secret does not decode; otherwise the code is that of RFC 6238 for steps of thirty seconds |
| `Totp.OneCode` | src/login/otp_helpers.h:88-114 | within a step a secret has exactly one code, six digits long |
| `Totp.NewBase32Secret` | src/login/otp_helpers.h:148-160 | a new secret decodes, to exactly twenty bytes |
| `CircularBuffers.PowerOfTwoTest` | src/common/circular_buffer.h:80-89 | the constructor's bit test holds exactly for the powers of two |
| `CircularBuffers.MaskIsModulo` | src/common/circular_buffer.h:57-60 | masking is the modulo, for every index and every power of two |
| `CircularBuffers.CircularBuffer.Advance` | src/common/circular_buffer.h:57-60 | the next index, wrapping at the capacity |
| `CircularBuffers.CircularBuffer.Enqueue` | src/common/circular_buffer.h:65-101 | appends, dropping the oldest element when the buffer holds N |
| `CircularBuffers.CircularBuffer.Dequeue` | src/common/circular_buffer.h:103-121 | gives and removes the oldest element |
| `CircularBuffers.CircularBuffer.Front` | src/common/circular_buffer.h:123-133 | gives the oldest element |
| `CircularBuffers.CircularBuffer.Size` | src/common/circular_buffer.h:149-164 | the number of elements held, from the two indices and the full flag |
| `CircularBuffers.CircularBuffer.IsEmpty` | src/common/circular_buffer.h:135-140 | whether nothing is held |
| `CircularBuffers.CircularBuffer.IsFull` | src/common/circular_buffer.h:142-147 | whether N elements are held |
| `CircularBuffers.CircularBuffer.Perform` | src/common/circular_buffer.h:65-121 | any run of operations matches the run on a bounded queue |
| `CircularBuffers.HoldsNewest` | src/common/circular_buffer.h:65-121 | after any run from empty, what is held is a suffix of everything enqueued, at most N long |
| `CircularBuffers.KeepsLast` | src/common/circular_buffer.h:65-77 | after enqueues alone, exactly the last N are held |
| `VanaTime.MomentOfIsMoment` | src/common/vana_time.h:90-158 | the calendar's mixed-radix digits of a time point recompose to it |
| `VanaTime.OneReading` | src/common/vana_time.h:90-158 | and no other digits do |
| `VanaTime.SecondExact` | src/common/vana_time.h:90-97 | the second is right if and only if a minute has passed since the epoch |
| `VanaTime.MinuteExact` | src/common/vana_time.h:99-106 | the minute is right if and only if an hour has passed |
| `VanaTime.HourExact` | src/common/vana_time.h:108-115 | the hour is right if and only if a day has passed |
| `VanaTime.MonthdayExact` | src/common/vana_time.h:117-124 | the exact times at which the day of the month is right |
| `VanaTime.MonthExact` | src/common/vana_time.h:126-133 | the exact times at which the month is right |
| `VanaTime.WeekdayExact` | src/common/vana_time.h:143-150 | the weekday is right if and only if a week has passed |
| `VanaTime.YeardayExact` | src/common/vana_time.h:152-158 | the day of the year is right if and only if a year has passed |
| `VanaTime.ReadingIs` | src/common/vana_time.h:90-141 | from the third year on: all getters together, one day low on a midnight and one month low where that begins a month |
| `VanaTime.ReadsMoment` | src/common/vana_time.h:90-141 | from the third year on, the getters give the moment whose digits recompose to the time point if and only if it is not a midnight |
| `VanaTime.DaysAgree` | src/common/vana_time.h:90-158 | weekday and day of the year agree with the date read: year*360 + (month-1)*30 + (monthday-1) is the day count |

## Left out

- Zlib.Codec.Compress: the filler that the source writes when there is no room is not described, nor is anything said of the buffer then; the result says only that it happened (`Garbage`). Sizes are bounded so that `(out_sz - 1) * 8` does not wrap in 32 bits.
- Zlib.Codec.Decompress: sizes for which the 32-bit cursor would wrap are excluded, and a payload that ends inside a code must have readable bytes after it, since the source reads them.
- Zlib.Codec.PopulateJumpTable: the debug assertion on the cells before a data cell is not modelled; the tree predicate asks for the null cells it needs.
- BitPacking.PackBitsBE: a field that reaches past 64 bits from its byte is excluded here, because the source shifts by more than the word's width; `PackBitsLE` and `UnpackBitsBE`, which test for it, are modelled in full.
- Soultrapper.RoundTrip: stated for names of seven-bit characters; a byte of 128 or more spills into its neighbour.
- Md5.Md5Context.Update: the big-endian build is not modelled, nor the aliasing of input and context.
- Blowfish.BlowfishInit: the 4168 bytes of the fixed table are a parameter; the x86 assembly paths are not modelled.
- LoggingJson.RoundTrip: `double` values are left out, since NaN and infinity do not print as JSON; a character stands for one byte, and whether the bytes form UTF-8 is not considered. The parser refuses escaped surrogates, which the printer never writes.
- LoggingJson.MemoryBuffer.RenderJsonLine: the clock, the broken-down date text and the logging context are parameters.
- Settings.Reader.Get: the conversion from the stored variant to the requested type is a parameter; the log line for a missing key is left out.
- SettingsThreads.GetIsFresh: each map access, the generation load and the bump are single steps; data races inside the map are outside the model.
- Scheduler.IntervalOnMainThread: how long calls take and how late waits wake up are arbitrary; cancellation is only the end of the run.
- Base32.CaseInsensitive: `toupper` is that of the C locale.
- Totp.GenerateTotp: the keyed hash is a parameter that gives twenty bytes; digits and period are the defaults that every caller uses, six and thirty.
- AuthServer.Server.Read: a command is one atomic step and its statements succeed, except that inserting an existing key does nothing; the clock, random texts, password hashing and token digests are parameters, and so is the code of a secret, which `AuthSecrets` takes to be the one that `Totp` computes. Malformed JSON, sockets, the satchel update, the time stamps of accounts and the message to other servers are left out.
- AuthSession: logins are compared exactly, not by the database's collation.
- VanaTime: time points before the epoch, and the moon, whose phase is computed in floating point.
- CircularBuffers: the mutex; each operation is one step.
- HMAC, SHA and bcrypt, the network, the database driver, Lua, file loading and the lobby packet handlers: foreign calls and I/O.
