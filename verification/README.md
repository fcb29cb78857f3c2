# Verified models of the bundled algorithm libraries

The server links zlib, the Ed25519 code of OpenSSL and the SFMT random number
generator. Each of them is built from fast forms of simple things. These Dafny
modules model the fast forms, in the shape of the C code, and prove that they
are the simple things: for all inputs, all runs and all buffer sizes.

`dafny verify dfyconfig.toml` checks everything.

- **Compression** (`Lz77`, `DeflateHash`, `DeflateDictionary`, `DeflateSearch`,
  `DeflateTurns`, `DeflateBlocks`, `DeflateState`, `DeflateFast`, `DeflateSlow`,
  `DeflateStream`). The compressor is a class with the window and both hash
  tables as arrays. A ghost history speaks of absolute positions in the input, so
  that a slide of the window, which moves every index, moves nothing there. The
  invariant of a run is that the symbols sent and held expand to the input read
  so far, and that they are the symbols of greedy or of lazy matching:
  `DeflateTurns` says what that is for a list of turns, each with the longest match
  of the strings that it may try, and that a run with enough tries misses none.
  `DeflateBlocks` is what the Huffman coder is given, with the block that is the
  last and the empty blocks of flushes.
- **Stored blocks** (`StoredBlocks`, `DeflateStored`). Level 0, whose blocks go
  around the window when they can, conserves its input; an independent decoder
  reads the output back.
- **Decompression** (`BitStream`, `InflateTables`, `InflateCodes`,
  `InflateState`, `InflateCopy`, `InflateFast`, `InflateWindow`). The fast loop
  refines a decoder that takes one symbol at a time from a number, and the match
  copy refines a copy of one byte at a time. `InflateCodes` is the other side: an
  encoder that writes code words and extra bits as a list of bits, for any tables,
  and the proof that the decoder reads back what it wrote. The tables are any that
  meet `LengthsOk` and `DistancesOk`. `InflateWindow.BitsRoundTrip` and
  `InflateWindow.BlockOfStream` join this to the compressor.
- **Checksums** (`CrcPoly`, `Crc32`, `CrcSquares`, `CrcPowers`, `CrcCombine`,
  `CrcResidue`, `Words`, `CrcWords`, `CrcBraid`, `CrcSwap`, `CrcStream`,
  `Adler32`). CRC-32 of section 8 of RFC 1952 as arithmetic modulo a polynomial
  over GF(2), and Adler-32 of section 8.2 of RFC 1950 with its remainders put off.
- **Scalars and points** (`ScalarLimbs`, `ScalarReduce`, `ScalarBytes`,
  `ScalarMul`, `Scalars`, `AbelianGroup`, `ScalarSlide`, `ScalarMult`,
  `ScalarComb`). Arithmetic modulo the group order of section 5.1 of RFC 8032, and
  scalar multiplication over any commutative group.
- **Field** (`Packing`, `ByteStrings`, `Field`, `FieldProduct`, `FieldMul`,
  `FieldPower`, `FieldBytes`, `FieldCodec`). Arithmetic modulo 2^255-19 in ten
  limbs. The machine types are subsets of the integers (`int32`, `int64`), so
  that every operation carries the proof that it does not overflow.
- **Random numbers** (`SfmtRecursion`, `SfmtFill`, `SfmtSimd`, `Sfmt`,
  `SfmtPeriod`, `SfmtBits`, `SfmtSeeds`). One sequence, drawn one word at a time, regenerated in place,
  filled in bulk, or computed in registers.
- **Plain files** (`GzReader`). The gz reader on a file that is not compressed.

`Basics` has the machine's integer types, and `Powers` the arithmetic of powers of
two that the others share; `DeflateModes` has the flush codes.

## Findings

Where the code and what it says of itself differ, the models follow the code.

- `slide` loses a carry for some scalars from 2^256 - 30 (2^255 - 1) / 31 on, and
  for none below (`ScalarSlide.SharpBound`, `ScalarSlide.RecodedLoses`);
  `ScalarSlide.CarryRunsOff` scans a scalar for it, and is the exact condition
  (`ScalarSlide.RecodedValue`). The comment above `ge_double_scalarmult_vartime`
  states no bound. Its caller passes only scalars below the group order, for which
  the result is exact (`ScalarMult.GeDoubleScalarmultVartime`).
- `gzgetc` says that it need not look for a request to skip. After `gzseek` on a
  file not yet looked at, `gzdirect` makes that untrue (`GzReader.GetAfterSeek`).
  `GzReader.Reader.Getc` says which byte comes and exactly when it is the right
  one; unless it is, `GzReader.Reader.Settled` is false, and every other operation
  keeps that true while there is no error.
- `gzungetc` right after `gzopen` is documented to accept as many bytes as the
  output buffer holds, which is twice the buffer size. It accepts exactly as many
  as the first read leaves room for (`GzReader.OpenAndPush`): for a long file half
  of them. `GzReader.NinthPush` is an input.
- `gzseek` to before the start fails, but drops a pending request to skip
  (`GzReader.GetAfterFailedSeek`; `GzReader.Reader.Seek` says when). With
  bytes pushed back before the start it may succeed with a negative position
  (`GzReader.SeekBeforeStart`).
- `adler32` of one byte reduces by one subtraction. That is exact if and only if
  the second sum is below twice the modulus; with halves that are not reduced it
  may not be (`Adler32.OneByte`, `Adler32.OneByteTooLarge`). `adler32_combine` likewise
  (`Adler32.Adler32Combine`, `Adler32.CombineTooLarge`).
- `crc32_combine` of a negative length does not come back
  (`CrcCombine.LoopEnds`). The interface does not exclude one.
- `inflateBack` passes its window to `inflate_fast` as the output. With `out` bytes
  written in this round the code accepts distances up to `out` plus `whave`. It has
  the bytes for those up to `out` while the window has not been full, and up to
  the window's size afterwards; `InflateCopy.UnwrittenByte` and
  `InflateCopy.OverwrittenByte` are inputs in between. `InflateCopy.CopyMatch` says
  what the others give, and `InflateFast.InEffectWithin` exactly when that is what
  was asked for. Valid streams have no such distances.

## Model

| member | source | states |
|---|---|---|
| Lz77.CopyBackReproduces | dep/zlib/deflate.c:1945-1949 | a match whose bytes occur again in the input expands to exactly those bytes, also when it overlaps itself |
| Lz77.ExplainsMatch | dep/zlib/deflate.c:1948-1949 | tallying a match of 3 to 258 bytes, at most MAX_DIST back and not from before the last full flush, that repeats the input moves the explained part of the input past the match; all symbols stay encodable, and those since the flush stand alone |
| Lz77.ExplainsLiteral | dep/zlib/deflate.c:1975 | tallying the literal at the end of the explained input moves it by that byte |
| Lz77.ExplainsFlush | dep/zlib/deflate.c:1564-1574 | sending a block changes nothing about what the symbols sent and held together expand to |
| Lz77.ExplainsAnew | dep/zlib/deflate.c:1199-1206 | once all is sent, a full flush may begin anew: from there on the symbols stand for the later input with no need of what came before |
| Lz77.ExpandBehind | dep/zlib/inffast.c:166-175 | bytes older than any distance reaches do not change an expansion, they only stand before it |
| DeflateHash.UpdateRolled | dep/zlib/deflate.c:135-141 | updating a rolled hash with the third byte gives the chain of those three bytes whatever came before them, and leaves the hash rolled for the next string |
| DeflateHash.ThreeUpdatesForget | dep/zlib/deflate.h:147-152 | after three updates the hash is that of the last three bytes, whatever it was before |
| DeflateHash.ThirdByteEqual | dep/zlib/deflate.c:1429-1436 | two strings on one hash chain whose first two bytes are equal have equal third bytes, which is why longest_match never compares them |
| DeflateHash.IndexBound | dep/zlib/deflate.c:141-163 | the masked hash indexes inside the head table |
| DeflateHash.MemLevels | dep/zlib/deflate.c:444-447 | for each memLevel, hash_mask being 2^(memLevel+7) - 1, the hash parameters are right exactly for hash_shift (hash_bits + 2) / 3 |
| DeflateDictionary.InsertCoherent | dep/zlib/deflate.c:155-163 | inserting a string in order keeps every chain: heads and links name inserted strings of that hash, each link strictly older, and no inserted string of the window is missing from its chain |
| DeflateDictionary.SlideCoherent | dep/zlib/deflate.c:187-209 | sliding both tables down by the window size keeps every chain, right and complete, on positions moved by the window size |
| DeflateDictionary.ExtendCoherent | dep/zlib/deflate.c:303-304 | reading more input keeps every chain, right and complete |
| DeflateDictionary.ClearCoherent | dep/zlib/deflate.c:170-175 | after the heads are cleared nothing is on a chain, whatever prev holds |
| DeflateDictionary.FollowLink | dep/zlib/deflate.c:1467-1468 | the link of a live string leads to a strictly smaller position with the same three-byte hash, or to none |
| DeflateSearch.AllTried | dep/zlib/deflate.c:1467-1469 | a walk along the chain of a string, with as many steps as there may be strings, tries every inserted string of that hash above the limit |
| DeflateSearch.LongestInReach | dep/zlib/deflate.c:1323-1326 | if none of the strings tried repeats for more than a length, and the walk may be long enough, then no inserted string in reach does, unless the length is all that was asked for |
| DeflateState.Deflate.ReadBuf | dep/zlib/deflate.c:218-239 | as many input bytes as there are and fit go to the window in order, and leave the input |
| DeflateState.Deflate.InsertString | dep/zlib/deflate.c:155-163 | the string is put at the head of its chain; the head it replaces, which its link keeps, is older and on the same chain; the hash is rolled for the next string |
| DeflateState.Deflate.SlideHash | dep/zlib/deflate.c:187-209 | both tables become their slid forms in place, and stay coherent with the moved positions |
| DeflateState.Deflate.SlideWindow | dep/zlib/deflate.c:277-287 | the upper half moves down, every index with it; absolute positions, the match position modulo 2^32 and the chains stay |
| DeflateState.Deflate.InsertPending | dep/zlib/deflate.c:307-325 | the hash starts over at the oldest pending string, and exactly the pending strings that now have three bytes are inserted, in order |
| DeflateState.Deflate.ZeroAhead | dep/zlib/deflate.c:339-364 | every byte that a search may scan past the data is initialised, and the data is untouched |
| DeflateState.Deflate.ReadMore | dep/zlib/deflate.c:301-304 | with at least two bytes free, as it requires, reading appends to the data in the window and keeps every chain |
| DeflateState.Deflate.FillOnce | dep/zlib/deflate.c:258-330 | a round moves no absolute position, ends below the limit for strstart, loses no input and consumes some if there is any |
| DeflateState.Deflate.FillWindow | dep/zlib/deflate.c:251-368 | the window stays the matching tail of the input, strstart stays at least MIN_LOOKAHEAD from the end, and either there is enough lookahead or no input is left |
| DeflateState.Deflate.CompareStrings | dep/zlib/deflate.c:1435-1452 | the eight-at-a-time scan returns the length of the longest common run, at most 258 |
| DeflateState.Deflate.Measure | dep/zlib/deflate.c:1422-1458 | a candidate skipped by the quick test cannot beat the best length, and one that is measured repeats for exactly the length measured, capped at 258 |
| DeflateState.Deflate.SearchChain | dep/zlib/deflate.c:1331-1469 | of the strings it may try, at most max_chain_length of them or a quarter after a good match, none repeats for more than the length it ends with, unless that is nice_match or all the lookahead; and the string found is the first, and so the nearest, of its length |
| DeflateState.Deflate.ThirdByte | dep/zlib/deflate.c:1429-1436 | a candidate on the chain whose first two bytes agree agrees in three |
| DeflateState.Deflate.NextCandidate | dep/zlib/deflate.c:1467-1468 | the next link, while above the distance limit, is again a smaller candidate on the same chain |
| DeflateState.Deflate.LongestMatch | dep/zlib/deflate.c:1331-1472 | the length is that of the longest match of all the strings that may be tried, within the lookahead, or one that is nice_match long; above prev_length it is a true repetition at match_start, the nearest of its length and no further back than MAX_DIST |
| DeflateState.Deflate.TallyDist | dep/zlib/deflate.h:329-339 | the symbol is appended whole: neither the 16-bit distance nor the 8-bit length loses anything |
| DeflateState.Deflate.FlushBlock | dep/zlib/deflate.c:1564-1580 | a block of the held symbols is given to the coder, marked as the last or not as asked; they move from the buffer to what was sent, what they expand to stays, and no byte of output is lost |
| DeflateState.Deflate.EndOfInput | dep/zlib/deflate.c:1997-2004 | at the end of the input the held symbols go out in one block, which is the last of the stream exactly at Z_FINISH; every symbol is then sent, they expand to all that was ever supplied, and the result names what is left to write |
| DeflateState.Deflate.ForgetHistory | dep/zlib/deflate.c:1201-1205 | a full flush that clears the table and resets the indices keeps the stream whole, and from there on the symbols stand for the later input on their own |
| DeflateFast.InsertCovered | dep/zlib/deflate.c:1835-1845 | exactly the strings that a match covers are inserted, in order |
| DeflateFast.SkipCovered | dep/zlib/deflate.c:1846-1859 | a match passed over without inserting leaves a rolled hash behind it |
| DeflateFast.Search | dep/zlib/deflate.c:1812-1831 | the turn at strstart is a greedy one: the search is made whenever there is a string in reach, and comes back with the longest match of those that may be tried |
| DeflateFast.Step | dep/zlib/deflate.c:1804-1867 | one round of the greedy loop tallies the symbol of its turn, a match if three bytes or more were found and else the literal, puts exactly the right strings into the dictionary, sends the block exactly when the buffer is full, and keeps the round trip |
| DeflateFast.DeflateFast | dep/zlib/deflate.c:1786-1877 | in every call the symbols sent and held are those of greedy matching and expand to exactly the input before strstart, with every length 3..258 and distance 1..MAX_DIST; all blocks but the last of a call are full, and one is the last of the stream exactly when the end has been seen; on return other than need_more they expand to all that was supplied |
| DeflateTurns.GreedyLongest | dep/zlib/deflate.c:1817-1831 | in a run of greedy matching with enough tries, each symbol whose string repeats that of an earlier turn in reach for three bytes or more is a match at least that long, up to nice_match |
| DeflateSlow.LazySearch | dep/zlib/deflate.c:1923-1937 | the length found is that of the longest match of the strings that may be tried; it becomes 2 exactly if it is at most 5 and filtered, or 3 and more than 4096 back; a match better than the previous one is a true one |
| DeflateSlow.Search | dep/zlib/deflate.c:1904-1938 | the turn at strstart is one of lazy matching: a search is made exactly when there is a string in reach and the match held is shorter than max_lazy_match |
| DeflateSlow.InsertMatched | dep/zlib/deflate.c:1951-1965 | exactly the strings up to the end of the match that have three bytes are inserted |
| DeflateSlow.EmitPrevious | dep/zlib/deflate.c:1942-1965 | the previous match is tallied with its length at its true distance, although the window may have slid and match_start wrapped below zero since it was found |
| DeflateSlow.EmitHeld | dep/zlib/deflate.c:1969-1975 | the byte held back becomes a literal |
| DeflateSlow.Decide | dep/zlib/deflate.c:1942-1989 | what goes out at strstart is what lazy matching has for the turn: the match held if the new one is not longer, else the byte held as a literal, else nothing; and the new state is its state |
| DeflateSlow.Step | dep/zlib/deflate.c:1904-1989 | one round of the lazy loop takes one turn of lazy matching, puts exactly the right strings into the dictionary, sends the block exactly when the buffer is full, and keeps the round trip, with one byte held when match_available is set |
| DeflateSlow.DeflateSlow | dep/zlib/deflate.c:1885-2005 | in every call the symbols sent and held are those of lazy matching and expand to exactly the input before strstart less the byte held; all blocks but the last of a call are full, and one is the last of the stream exactly when the end has been seen; on return other than need_more nothing is held and they expand to all that was supplied |
| DeflateTurns.LazyLongest | dep/zlib/deflate.c:1914-1937 | in a run of lazy matching with enough tries, each search that is due comes back with at least as many bytes as the string of any earlier turn in reach repeats, up to nice_match, and only a length of at most 5 is given up |
| DeflateBlocks.ReadUntilLast | dep/zlib/deflate.c:1997-2004 | a reader that stops after the first block marked last has all the symbols of a closed stream, and never stops in an open one |
| DeflateStream.DeflateInit | dep/zlib/deflate.c:379-384 | a new compressor is ready for calls, with nothing read and nothing sent |
| DeflateStream.AfterBlock | dep/zlib/deflate.c:1191-1213 | a sync or full flush appends the empty stored block, a partial one the empty static block and Z_BLOCK none; a full flush, and no other, begins anew |
| DeflateStream.Supply | dep/zlib/deflate.c:934-960 | new input and room between calls keep the invariant |
| DeflateStream.Ranks | dep/zlib/deflate.c:133 | the flush codes are those of the interface, and their ranks put Z_BLOCK after Z_NO_FLUSH and before all the others |
| DeflateStream.Call | dep/zlib/deflate.c:934-1243 | any sequence of calls, with any flush codes and buffers, keeps the round trip. Z_OK means that the output is full or the input taken, and with room left after a flush that everything is out and ends with its empty block, after a full flush so that later symbols stand alone. Z_BUF_ERROR and Z_STREAM_ERROR come exactly when they should, and nothing was sent or read. Stream end means that every byte ever supplied is in the blocks, the last and no other is marked last, and nothing is left to write. No byte of output is lost |
| StoredBlocks.DecodeBlock | dep/zlib/trees.c:858-873 | a decoder that checks NLEN against LEN, begun at any bit of a byte, reads back the one block and what follows it |
| StoredBlocks.RoundTrip | dep/zlib/trees.c:858-873 | decoding any sequence of encoded stored blocks of at most 65535 bytes, the first at any bit of a byte, gives the sequence |
| DeflateStored.WroteNext | dep/zlib/deflate.c:1641-1683 | one more block, taken from the bytes waiting and new ones, keeps the output equal to the encoded blocks and the blocks equal to the input less what waits |
| DeflateStored.Stored.FlushPending | dep/zlib/deflate.c:903-921 | what was delivered and what is pending stay the same bytes; something stays pending only when the output is full |
| DeflateStored.Stored.TrStoredBlock | dep/zlib/trees.c:858-873 | the pending bits, the header, the lengths and the bytes are appended, and the bit buffer is empty |
| DeflateStored.Stored.DirectHeader | dep/zlib/deflate.c:1642-1655 | the dummy block with its lengths replaced is the header of a block whose bytes are still to come |
| DeflateStored.Stored.EmitDirect | dep/zlib/deflate.c:1642-1683 | one block goes to the output, first from the window and then from the input; everything stays conserved |
| DeflateStored.Stored.DirectBlocks | dep/zlib/deflate.c:1615-1684 | the loop of direct copies conserves the input, goes on exactly as long as a block is worth sending, sends none that is not, all but the last of the largest size, and marks a block as the last only when nothing is left |
| DeflateStored.Stored.UpdateWindow | dep/zlib/deflate.c:1686-1720 | after bytes bypassed the window it holds the end of the input again, by replacing, sliding exactly when it is full, or appending |
| DeflateStored.Stored.FillWindow | dep/zlib/deflate.c:1731-1752 | the remaining input, or exactly as much as fits after a slide if that is possible, waits in the window; if some does not fit, at least w_size bytes wait |
| DeflateStored.Stored.PendingBlock | dep/zlib/deflate.c:1754-1773 | a block, as large as fits, goes through the pending buffer exactly when it is worth it, and it is the last exactly if the stream is to finish and nothing is left |
| DeflateStored.Stored.DeflateStored | dep/zlib/deflate.c:1602-1777 | in every call the blocks given and pending, with the bytes waiting in the window, are the input consumed; every block has at most 65535 bytes; the final bit is set only on a block that leaves nothing; need_more means progress, or too little input to be worth a block |
| DeflateStored.Stored.SyncMarker | dep/zlib/deflate.c:1191-1209 | the empty block after a flush, and the reset of a full flush, keep all of that |
| DeflateStored.Stored.Recovered | dep/zlib/deflate.c:1602-1777 | at any time a decoder of the output and the pending bytes, begun at the bit where the first block does, gets back the blocks, and their bytes and those waiting are all the input consumed |
| BitStream.StreamPull | dep/zlib/inffast.c:102-105 | moving a byte from the input into the bit buffer does not change the stream of bits |
| BitStream.StreamPeek | dep/zlib/inffast.c:107-111 | the low bits of the buffer are the next bits of the stream, and dropping them is reading them |
| BitStream.GiveBack | dep/zlib/inffast.c:289-293 | whole bytes can be given back to the input: what remains is the stream after the bits used |
| InflateState.Inflate.Refill | dep/zlib/inffast.c:101-106 | two bytes are read when fewer than 15 bits are held, none are lost, and the buffer never holds more than 30 |
| InflateState.Inflate.FindEntry | dep/zlib/inffast.c:107-112 | the table walk, with its second-level link, finds the code that the stream begins with and drops exactly its bits |
| InflateState.Inflate.NextDistance | dep/zlib/inffast.c:132-164 | the distance read, with extra bits pulled as needed, is that of the one-symbol decoder, which InflateCodes.ReadWritten ties to what an encoder writes |
| InflateState.Inflate.NextSymbol | dep/zlib/inffast.c:101-164 | one iteration reads exactly one symbol of the one-symbol decoder, from at most six input bytes |
| InflateCodes.OpValues | dep/zlib/inftrees.h:30-36 | the operations of a table entry: literal, link with its index bits, base with its extra bits, end of block, invalid |
| InflateCodes.BytesNumber | dep/zlib/inffast.c:101-106 | the bits of the stream are those of the input bytes, each from its lowest bit up |
| InflateCodes.WordFound | dep/zlib/inffast.c:107-112 | a code word of the table is found through one level or two, whatever bits follow it |
| InflateCodes.ReadWritten | dep/zlib/inffast.c:107-164 | what an encoder writes for a symbol, the code word and for a match the extra bits of its length, the code word of its distance and the extra bits of that, is read back as that symbol, base and extra added, from exactly those bits |
| InflateCodes.BlockRead | dep/zlib/inffast.c:100-300 | what an encoder writes for a block is read back symbol by symbol to its end, and after each symbol the bits left are those written after it |
| InflateCopy.CopyMatch | dep/zlib/inffast.c:166-261 | for any window and any distance within the history, in all window cases, the copy in threes appends exactly the naive copy from the window, oldest first, followed by the output; when the window is the output itself, a distance beyond it takes effect as one less by the size of the window; nothing else in the output changes, nor what is still needed of the window |
| InflateCopy.UnwrittenByte | dep/zlib/inffast.c:166-205 | a window not full yet that is the output: a distance before its first byte is accepted and gives a byte never written |
| InflateCopy.OverwrittenByte | dep/zlib/inffast.c:166-205 | a full window that is the output: a distance beyond it is accepted and gives a newer byte |
| InflateFast.Step | dep/zlib/inffast.c:100-286 | one iteration decodes one symbol, reads at most 6 bytes and writes at most 258 |
| InflateFast.ReturnUnused | dep/zlib/inffast.c:289-293 | fewer than 8 bits are held and the input names exactly the bytes not consumed |
| InflateFast.InflateFast | dep/zlib/inffast.c:50-304 | the symbols decoded are those of the one-symbol decoder on the same bits, the output is their expansion (with distances as they take effect, where the window is the output), every bit not used is in the bit buffer or the input, the mode tells why it stopped, and the counts are exact |
| InflateFast.InEffectWithin | dep/zlib/inffast.c:166-175 | distances take effect as they are if and only if none reaches beyond the window |
| InflateWindow.UpdateWindow | dep/zlib/inflate.c:368-412 | the circular window afterwards holds the last bytes of its old history followed by the new output |
| InflateWindow.Continues | dep/zlib/inflate.c:368-412 | keeping only the window between calls loses nothing: from it the next symbols expand if and only if they do after all that came before, and to the same bytes |
| InflateWindow.RoundTrip | dep/zlib/inffast.c:50-304 | decoding, in pieces and from the kept window, the symbols a compressor sent never fails and gives a prefix of its input, and all of it at the end |
| InflateWindow.NotBad | dep/zlib/inffast.c:166-174 | inflate_fast never stops for bad data on a block of symbols that expand, and when it stops at the end of the block it has decoded all of it |
| InflateWindow.BitsRoundTrip | dep/zlib/inffast.c:50-300 | a call on the bits that were written for a block with these tables never stops for bad data, gives the bytes of the block from the first on, and leaves exactly the bits not used; at its end it has all bytes of the block |
| InflateWindow.BlockOfStream | dep/zlib/deflate.c:1564-1574 | each block that the compressor gives to the coder is such a block: it expands to part of the input after those before it |
| CrcPoly.MulCommutes | dep/zlib/crc32.c:133-170 | the product modulo the polynomial is commutative |
| CrcPoly.MulAssociates | dep/zlib/crc32.c:133-170 | and associative |
| CrcPoly.MulDistributes | dep/zlib/crc32.c:133-170 | and distributes over exclusive or |
| CrcPoly.XPowNonzero | dep/zlib/crc32.c:172-187 | no power of x is zero, so multmodp may be called with it |
| CrcPoly.XPowIsMul | dep/zlib/crc32.c:172-187 | shifting n times by x is multiplying by x^n |
| Crc32.Multmodp | dep/zlib/crc32.c:155-170 | for a nonzero first argument the loop ends with the product modulo the polynomial |
| CrcPowers.PowersWrap | dep/zlib/crc32.c:325-329 | x^(2^32) is x modulo the polynomial |
| CrcPowers.PowersMod32 | dep/zlib/crc32.c:176-187 | x^(2^k) depends on k modulo 32 only, so the masked table index is right for every k |
| CrcWords.MakeCrcTable | dep/zlib/crc32.c:310-323 | entry i is i times x^8, that is, eight steps of the bitwise division; the big table has the same with the bytes swapped |
| CrcWords.TableStep | dep/zlib/crc32.c:1003-1006 | one table lookup is one byte of the bitwise division |
| CrcCombine.MakeX2nTable | dep/zlib/crc32.c:325-329 | entry n is x^(2^n) |
| CrcCombine.X2nmodp | dep/zlib/crc32.c:176-187 | the result is x^(n 2^k) and never zero, for all n and k |
| CrcCombine.LoopEnds | dep/zlib/crc32.c:180-185 | the loop comes to an end if and only if the length is not negative |
| CrcCombine.RegisterLinear | dep/zlib/crc32.c:757-775 | the register after some data is linear in the register before it |
| CrcCombine.CombineIsConcatenation | dep/zlib/crc32.c:1021-1026 | the checksum of a concatenation is x^(8 len2) times the first checksum, plus the second |
| CrcCombine.Crc32Combine | dep/zlib/crc32.c:1021-1026 | combining the checksums of any two byte sequences gives that of the two together |
| CrcBraid.Braid | dep/zlib/crc32.c:528-540 | the braid tables hold the powers that skip the other braids, for any N and W; the big ones the same with the bytes swapped and the rows reversed |
| CrcWords.CrcWord | dep/zlib/crc32.c:676-681 | a word through the byte table is its bytes through the register |
| CrcBraid.FoldIsRegister | dep/zlib/crc32.c:798-834 | looking each byte of a word up in its own table is the register after the word, times the power of x that skips the rest of the block |
| CrcBraid.BraidWord | dep/zlib/crc32.c:798-834 | the braid of one word, for every N and W |
| CrcBraid.BlockStep | dep/zlib/crc32.c:779-835 | if the braids together stand for the register before a block, then after it they stand for the register after it |
| CrcBraid.AbsorbIsRegister | dep/zlib/crc32.c:837-857 | the last block, which takes in one braid after another, gives the register after it |
| CrcStream.SomeBlock | dep/zlib/crc32.c:709-723 | the braided path always has at least one whole block |
| CrcStream.BlockStands | dep/zlib/crc32.c:779-835 | a whole block through all braids is that block through the register |
| CrcStream.Blocks | dep/zlib/crc32.c:721-858 | the braided loop and its last block leave the register that the bytes, one at a time, would leave |
| CrcSwap.LoadBigIsSwap | dep/zlib/crc32.c:901-918 | the word a big-endian machine loads is the little-endian one with its bytes swapped |
| CrcSwap.CrcWordBig | dep/zlib/crc32.c:683-689 | a swapped word through the big table is the swapped register after its bytes |
| CrcSwap.BraidWordBig | dep/zlib/crc32.c:920-957 | the braid of one word from its last byte to its first, in swapped words |
| CrcStream.BlocksBig | dep/zlib/crc32.c:859-979 | the big-endian loop and last block leave the same register |
| CrcStream.Crc32Z | dep/zlib/crc32.c:694-1010 | for every N in 1..6, W of 4 or 8, alignment, length and byte order the result is the checksum a byte at a time, which CrcResidue.Residue and CrcResidue.NineDigits pin |
| CrcResidue.Residue | dep/zlib/crc32.c:704-1009 | the checksum of any data followed by its own checksum, least significant byte first, is 0x2144df1c |
| CrcResidue.NineDigits | dep/zlib/crc32.c:704-1009 | the checksum of 123456789 is 0xcbf43926 |
| CrcResidue.ZeroByte | dep/zlib/crc32.c:704-1009 | the checksum of one zero byte is 0xd202ef8d, so that a leading zero is seen |
| Adler32.Mod28IsMod | dep/zlib/adler32.c:25-35 | the division-free MOD28 is the remainder below 2^28 |
| Adler32.ModIsMod | dep/zlib/adler32.c:36-40 | the division-free MOD is the remainder on all 32-bit values |
| Adler32.Mod63IsMod | dep/zlib/adler32.c:41-53 | the division-free MOD63 is the remainder on all values below 2^63 |
| Adler32.BlockIsLargest | dep/zlib/adler32.c:11-12 | 5552 is the most bytes before the second sum can leave 32 bits, and not one more |
| Adler32.Sum | dep/zlib/adler32.c:14-18 | within 5552 bytes neither sum overflows 32 bits when its remainder is put off |
| Adler32.OneByte | dep/zlib/adler32.c:70-80 | one byte without a remainder is the recurrence if and only if the second sum stays below twice the modulus; its halves are always right modulo 65521 |
| Adler32.Long | dep/zlib/adler32.c:91-124 | blocks of 5552 bytes and a shorter rest give the per-byte recurrence |
| Adler32.Adler32Z | dep/zlib/adler32.c:61-125 | at every length the per-byte recurrence modulo 65521; for one byte exactly when the second sum stays below twice the modulus, which reduced halves guarantee; 1 without a buffer |
| Adler32.NineLetters | dep/zlib/adler32.c:61-131 | the checksum of Wikipedia is 0x11e60398 |
| Adler32.OneByteTooLarge | dep/zlib/adler32.c:70-78 | with halves 65520 and 65535 the checksum of one zero byte is not that of the recurrence |
| Adler32.CombineIsConcatenation | dep/zlib/adler32.c:133-155 | continuing from a checksum is the checksum of the concatenation, and checksums are reduced |
| Adler32.Adler32Combine | dep/zlib/adler32.c:133-155 | for every length the combined checksum is that of the concatenation if and only if both unreduced sums are small enough for the subtractions, which reduced halves guarantee; for a negative one the error value |
| Adler32.TooLargeToCombine | dep/zlib/adler32.c:133-155 | that fails for first checksum 65535 and 256 bytes 255 followed by 239 |
| Adler32.CombineTooLarge | dep/zlib/adler32.c:133-155 | so combining 65535 with the checksum of those bytes gives another number than continuing from 65535 with them |
| ScalarLimbs.Fold | dep/openssl_ed25519/curve25519.c:4661-4667 | folding limb i down takes a multiple of l off the value, clears the limb, and bounds the six it goes to |
| ScalarLimbs.RoundCarry | dep/openssl_ed25519/curve25519.c:4709-4711 | a rounding carry keeps the value and leaves a balanced limb |
| ScalarLimbs.FloorCarry | dep/openssl_ed25519/curve25519.c:4838-4840 | a flooring carry keeps the value and leaves a limb of 21 bits |
| ScalarReduce.ReduceHigh | dep/openssl_ed25519/curve25519.c:4661-4742 | six folds and a run of carries, without overflow |
| ScalarReduce.ReduceMiddle | dep/openssl_ed25519/curve25519.c:4744-4828 | six more folds leave limb 11 balanced |
| ScalarReduce.ReduceLow | dep/openssl_ed25519/curve25519.c:4830-4915 | because the carries were balanced the last fold is by 0 or -1 times l, and the value is in [0, l) |
| ScalarReduce.ReduceLimbs | dep/openssl_ed25519/curve25519.c:4661-4915 | any limbs as wide as either caller makes them reduce to the value modulo l, with no step leaving int64 |
| ScalarBytes.Limbs24AreDigits | dep/openssl_ed25519/curve25519.c:4619-4642 | the overlapping loads are the base 2^21 digits of the bytes |
| ScalarBytes.Bytes32Value | dep/openssl_ed25519/curve25519.c:4917-4948 | the packed bytes have the value of the limbs |
| ScalarMul.ProductValue | dep/openssl_ed25519/curve25519.c:5048-5071 | the 23 columns have the value of the product |
| ScalarMul.ProductLimbs | dep/openssl_ed25519/curve25519.c:5048-5071 | with the addend they have the value of ab+c, and fit |
| ScalarMul.AddProduct | dep/openssl_ed25519/curve25519.c:5048-5071 | every product and every sum from the left on the way to them fits int64 |
| Scalars.X25519ScReduce | dep/openssl_ed25519/curve25519.c:4617-4949 | the first 32 bytes become exactly s mod l; the others stay |
| Scalars.ScMuladd | dep/openssl_ed25519/curve25519.c:4961-5432 | the bytes written are exactly (ab+c) mod l, for all inputs, also when the output is one of them |
| ScalarSlide.Slide | dep/openssl_ed25519/curve25519.c:4426-4459 | the array becomes the one sequence of 256 digits, each zero or odd in -15..15 and followed by four zeros, that a right-to-left recoding of the scalar gives |
| ScalarSlide.RecodedUnique | dep/openssl_ed25519/curve25519.c:4426-4459 | there is only one such sequence for a value modulo 2^256 |
| ScalarSlide.RecodedValue | dep/openssl_ed25519/curve25519.c:4426-4459 | the digits have the value of the scalar if and only if no carry runs off the end, and its value less 2^256 otherwise; whether one does is a scan of the scalar |
| ScalarSlide.BelowLeast | dep/openssl_ed25519/curve25519.c:4445-4451 | below the least scalar that loses a carry none does |
| ScalarSlide.LeastLoses | dep/openssl_ed25519/curve25519.c:4445-4451 | and that one does |
| ScalarSlide.SharpBound | dep/openssl_ed25519/curve25519.c:4426-4459 | the least is 2^256 - 30 (2^255 - 1) / 31: all scalars below are recoded exactly, and it is not |
| ScalarSlide.RecodedLoses | dep/openssl_ed25519/curve25519.c:4445-4451 | 17 times 2^251 is a scalar whose carry is lost |
| ScalarMult.OddTable | dep/openssl_ed25519/curve25519.c:4549-4572 | the table holds A, 3A, ..., 15A |
| ScalarMult.CombineDigits | dep/openssl_ed25519/curve25519.c:4574-4602 | doubling and adding from the highest digit down gives the combination of the digits, with every table index in 0..7 |
| ScalarMult.GeDoubleScalarmultVartime | dep/openssl_ed25519/curve25519.c:4535-4603 | in any commutative group aA + bB, each scalar less 2^256 if it loses a carry; so exactly aA + bB for all scalars below the sharp bound |
| ScalarComb.SignedDigits | dep/openssl_ed25519/curve25519.c:4239-4254 | the 64 signed digits in -8..8 have the value of the scalar |
| ScalarComb.TableSelect | dep/openssl_ed25519/curve25519.c:4200-4219 | the entry selected is b 256^pos B, negated for a negative digit |
| ScalarComb.AlternateAll | dep/openssl_ed25519/curve25519.c:4256-4276 | the value is that of the even places and 16 times that of the odd places |
| ScalarComb.GeScalarmultBase | dep/openssl_ed25519/curve25519.c:4230-4279 | for a[31] at most 127, odd digits, four doublings and even digits give aB in any commutative group |
| FieldProduct.ProductValue | dep/openssl_ed25519/curve25519.c:1073-1182 | the ten columns, with factors 2 and 19, have the value of the product modulo 2^255-19 |
| Field.SqColumnsAre | dep/openssl_ed25519/curve25519.c:1292-1356 | the columns of the square are those of the product with itself, each of them |
| FieldMul.ColumnsFit | dep/openssl_ed25519/curve25519.c:1183-1190 | for inputs within 1.65*2^26 and 1.65*2^25 the columns are as small as the carries need |
| FieldMul.MulColumns64 | dep/openssl_ed25519/curve25519.c:1037-1182 | the multiples computed ahead fit int32, and every product and every sum from the left fits int64; the columns are those of the product |
| FieldMul.SqColumns64 | dep/openssl_ed25519/curve25519.c:1267-1356 | the same for the products and sums that the square has |
| FieldMul.CarriedTight | dep/openssl_ed25519/curve25519.c:1183-1240 | after the carries limbs are within 1.01*2^25 and 1.01*2^24 |
| FieldMul.FeMul | dep/openssl_ed25519/curve25519.c:1037-1252 | the product modulo 2^255-19 within the stated bounds, also when operands overlap, by way of the 64-bit columns and carries |
| FieldMul.FeSq | dep/openssl_ed25519/curve25519.c:1267-1397 | the square, and limb for limb what fe_mul(f, f) gives |
| FieldPower.Squares | dep/openssl_ed25519/curve25519.c:1425-1428 | a loop of k squarings raises to 2^k |
| FieldPower.FeInvert | dep/openssl_ed25519/curve25519.c:1399-1493 | the chain computes the power 2^255-21 |
| FieldPower.FePow22523 | dep/openssl_ed25519/curve25519.c:1719-1775 | the chain computes the power 2^252-3 |
| FieldCodec.QuotientFound | dep/openssl_ed25519/curve25519.c:840-889 | the carry walk finds floor(h/p) |
| FieldCodec.FeTobytes | dep/openssl_ed25519/curve25519.c:864-944 | for limbs within 1.1*2^26 and 1.1*2^25 the bytes are the one representative in [0, 2^255-19) |
| FieldCodec.FeFrombytes | dep/openssl_ed25519/curve25519.c:792-838 | the limbs stand for the bytes without the top bit, within the bounds fe_mul leaves |
| FieldCodec.Reencode | dep/openssl_ed25519/curve25519.c:792-944 | writing what was read gives the bytes without the top bit, reduced modulo p |
| SfmtRecursion.ShiftsAgree | dep/SFMT/SFMT-common.h:60-114 | the two 64-bit halves shifted with carry are the 128-bit register shifted by a byte |
| SfmtRecursion.RecursionsAgree | dep/SFMT/SFMT-sse2-msc.h:36-50 | mm_recursion on registers is do_recursion on words |
| SfmtFill.DoRecursion | dep/SFMT/SFMT-common.h:142-158 | the recursion of the old values, also when the result is the first operand |
| SfmtBits.RecursionBit | dep/SFMT/SFMT-common.h:142-158 | every bit n of the next word is the exclusive or of bits n and n-8 of the first operand, n+11 of the second in the same lane where the masks do not clear it, n+8 of the third and n-18 of the fourth in the same lane |
| SfmtSeeds.FirstWords | dep/SFMT/SFMT-common.h:142-158 | the four words drawn first from a state that has given words at its places 0, 122, 154 and 155 |
| SfmtFill.GenRandAll | dep/SFMT/SFMT.c:245-263 | the state in place becomes the next 156 words of the recurrence |
| SfmtFill.GenRandArray | dep/SFMT/SFMT.c:95-128 | for any size of at least 156 the array is the next words of the recurrence, and the state the last 156 of them |
| SfmtSimd.GenRandAll | dep/SFMT/SFMT-sse2-msc.h:57-77 | the same with registers |
| SfmtSimd.GenRandArray | dep/SFMT/SFMT-sse2-msc.h:86-122 | the same with registers |
| Sfmt.Generator.constructor | dep/SFMT/SFMT.c:349-362 | a seeded generator holds exactly the state of its seed and stands before its first word |
| Sfmt.Generator.InitGenRand | dep/SFMT/SFMT.c:349-362 | the state is the congruential sequence from the seed if that is certified, and otherwise the same with the lowest bit of its first word flipped and nothing else |
| SfmtSeeds.Seed1234 | dep/SFMT/SFMT.c:349-362 | the first words that the seed 1234 leaves, among them 1235 for the seed itself, whose state had to be certified |
| Sfmt.Generator.GenrandUint32 | dep/SFMT/SFMT.h:139-149 | each draw is the next word of the sequence, across regenerations |
| Sfmt.Generator.GenrandUint64 | dep/SFMT/SFMT.h:159-183 | each draw is the next two words, low word first |
| Sfmt.Generator.FillArray32 | dep/SFMT/SFMT.c:293-300 | a bulk fill gives the words that as many single draws would have given, and later draws continue after them |
| Sfmt.SimdGenerator.constructor | dep/SFMT/SFMT.c:349-362 | the registers hold exactly the state of the seed |
| Sfmt.SimdGenerator.GenrandUint32 | dep/SFMT/SFMT.h:139-149 | each draw from the lanes of registers regenerated in SSE2 is the next word of the same sequence |
| Sfmt.SimdGenerator.FillArray32 | dep/SFMT/SFMT-sse2-msc.h:86-122 | the lanes of a bulk fill in SSE2 are the words that as many draws would have given |
| SfmtPeriod.FoldedIsParity | dep/SFMT/SFMT.c:181-184 | folding by shifts leaves the parity of the bits selected |
| SfmtPeriod.FlipCertifies | dep/SFMT/SFMT.c:188-199 | flipping one selected bit certifies a state that was not |
| SfmtPeriod.PeriodCertification | dep/SFMT/SFMT.c:170-200 | afterwards the state is certified; a certified state is untouched, and any other has its first selected bit flipped and nothing else |
| SfmtBits.CertifiedBits | dep/SFMT/SFMT-params19937.h:14-17 | a state is certified exactly if the number of the fifteen listed bits that are set, bit 0 of the first word and fourteen of the fourth, is odd |
| GzReader.Reader.GzLoad | dep/zlib/gzread.c:12-34 | however few bytes each read returns, all that are asked for arrive, or all there are, and only then is the end of the file noted |
| GzReader.Reader.GzLook | dep/zlib/gzread.c:76-149 | the bytes read to look for a header become bytes at hand, none lost |
| GzReader.Reader.GzFetch | dep/zlib/gzread.c:208-233 | refilling the buffer changes nothing about what is ahead |
| GzReader.Reader.GzSkip | dep/zlib/gzread.c:236-262 | exactly as many bytes are skipped as are asked for, or all there are |
| GzReader.Reader.GzRead | dep/zlib/gzread.c:268-342 | a read gives the bytes ahead, pushed-back ones first, as many as asked for or all there are, through the buffer or around it; it leaves room to push one back, and notes when it came short |
| GzReader.Reader.Read | dep/zlib/gzread.c:345-374 | the same for callers, who get an error for a size that an int cannot hold |
| GzReader.Reader.Getc | dep/zlib/gzread.c:408-431 | the next byte if and only if no skip is pending in front of bytes at hand, or the first of those happens to be the same; otherwise the first of those |
| GzReader.Reader.Ungetc | dep/zlib/gzread.c:438-496 | the byte goes in front of what is ahead and nothing else changes; it fails exactly for a negative byte, an earlier error or a full buffer |
| GzReader.Reader.SlideUp | dep/zlib/gzread.c:482-489 | the bytes at hand move to the end of the buffer, from the last of them down |
| GzReader.Reader.Seek | dep/zlib/gzlib.c:339-409 | afterwards the bytes ahead are those of the file from the target on, and the position is the target; a target before the start fails, unless bytes pushed back reach it |
| GzReader.Reader.Rewind | dep/zlib/gzlib.c:318-336 | the whole file is ahead again |
| GzReader.Reader.Direct | dep/zlib/gzread.c:559-574 | what is ahead stays, but a pending skip may now have bytes at hand before it |
| GzReader.Reader.TellCounts | dep/zlib/gzlib.c:420-432 | the position counts the bytes of the file before what is ahead |
| GzReader.SeekAndRead | dep/zlib/gzlib.c:339-409 | seeking and reading is indexing into the file |
| GzReader.PushAndGet | dep/zlib/gzread.c:438-496 | a byte pushed back is the next one read, and nothing else changes |
| GzReader.PushAll | dep/zlib/gzread.c:438-496 | of any number of bytes pushed back before anything was read, as many are taken as the first read leaves room for, and they come back last first |
| GzReader.OpenAndPush | dep/zlib/gzread.c:438-496 | right after opening all n pushes succeed if and only if n is at most twice the buffer size less what the first read put there |
| GzReader.NinthPush | dep/zlib/gzread.c:476-480 | with a buffer size of 8 and a file of 8 bytes the ninth push fails |
| GzReader.GetAfterSeek | dep/zlib/gzread.c:420-425 | after gzseek and gzdirect on a new file, gzgetc gives the first byte of the file and not the one sought; without gzdirect it gives the right one |
| GzReader.GetAfterFailedSeek | dep/zlib/gzlib.c:361-393 | after a seek to 1 on a new file and one before its start, which fails, the next byte is the first |
| GzReader.SeekBeforeStart | dep/zlib/gzlib.c:359-404 | after two pushes on a new file a seek to -2 succeeds, and the next byte is the one pushed last |

## Left out

- Choosing Huffman codes: trees.c builds them, inftrees.c builds tables from their
  lengths. The compressor's output is a list of blocks of symbols; what is written
  for a block, and read back, is stated for any tables that hold its code words.
- The headers of blocks with fixed and dynamic codes.
- The slow loop of inflate, which handles the ends of buffers and the block
  headers; `INFLATE_STRICT` and the build option that allows distances too far
  back.
- DeflateStream.Call: models raw streams, without the states for headers and
  trailers.
- zlib and gzip headers and trailers, and the checksums that `read_buf` updates.
- `deflateParams`, `deflateTune`, `deflateCopy`, preset dictionaries and the
  Huffman-only and run-length strategies: more cases, no harder claim.
- `FASTEST` and 16-bit variants of the matcher, and allocation.
- DeflateState.Deflate.TrFlushBlock: says nothing of how many bytes a block
  takes; any number of bytes may become pending.
- DeflateStream.EmptyBlock: the same, for the empty block after a flush.
- DeflateStored.Stored.SyncMarker: models the marker of sync and full flushes;
  the partial flush writes a static block instead.
- The ARM instructions for CRC-32 and the printing of tables. The tables printed in
  crc32.h are taken to be those that `make_crc_table` and `braid` make.
- CrcCombine.X2nmodp: takes lengths that are not negative, since the loop does not
  end for others; CrcCombine.LoopEnds says so.
- CrcCombine.Crc32Combine: the same.
- CrcStream.Crc32Z: written with loops over braids where the source is unrolled
  by the preprocessor.
- Scalars.ScMuladd: written with loops and helper methods for runs of carries
  that the source writes out; the order of the steps is the source's.
- FieldMul.MulColumns64: written with a loop over the products of a column that
  the source writes out; their order is the source's.
- Adler32.Adler32Z: takes a null buffer with any length but one; at length one the
  source reads the buffer before it looks whether there is one.
- Coordinates of points: the Edwards addition law, conversions between forms, the
  numbers in the precomputed tables (taken to be the stated multiples), the
  primality of 2^255-19, and constant time.
- `fe_add`, `fe_sub`, `fe_neg`, `fe_sq2` and the Montgomery ladder of X25519.
- SHA-512, signing and verifying.
- SFMT: seeding from an array, floating-point conversions, 64-bit bulk fill,
  other exponents, big-endian layouts, and what a certified state says about the
  period.
- Gz files: opening, errors of reads, gzip mode, writing, `gzgets`, and
  `gzclearerr`. The reader is given a fixed file that is not empty and not gzip.
- GzReader.Reader.GzLook: takes a file that is not empty, and so never leaves the
  state without a mode.
- GzReader.Reader.ReadSome: stands for the system call, with any number of bytes
  per read.
