# Verified models of NyaZygisk

A Dafny model of the parts of NyaZygisk that carry the most state and arithmetic, with proofs of
what they promise. `dafny verify dfyconfig.toml` checks all of it. There are five components.

**LZMA2 decoder** (`RangeCoder`, `RangeDecoder`, `Dictionary`, `LzmaPackets`, `LzmaReference`, `LzmaCounts`,
`LzmaUnique`, `LzmaComplete`, `LzmaEncoder`, `Lzma2Stream`, `Lzma2Reference`, `Lzma`, `Lzma2`, `Lzma2Control`). The
decoder that unpacks `.gnu_debugdata`, as the C code runs it: a circular dictionary, a range decoder with adaptive
probabilities, a 63-byte buffer between inputs, and a control machine that can stop and go on at any byte. The model
is a set of classes with the same fields. `Lzma2Stream` says what the format is without a decoder: which chunk may
come next, how chunks are spelled in bytes, and what they mean. `LzmaReference` and `Lzma2Reference` say the parts
that encoding and decoding share a second time, in another way: the state by the kinds of the latest packets, each
bit of a packet by the array and index of its probability, and the place of a stream by its chunks. Proved:

- No read outside a buffer on any input, by a potential argument on the range: one symbol never eats more than 20 bytes.
- The dictionary is a window on an unbounded history, and the machine terminates.
- The format is unambiguous: bytes are the spelling of one stream at most, and every packet sequence has a spelling.
- The whole decoder, on any input, cut anywhere, into any output buffer: what it has read is the spelling of the
  chunks completed and the beginning of one more, and what it outputs is what they mean. It refuses only if no legal
  stream begins with the bytes at hand. On the bytes of a legal stream it never returns an error, and with all of
  them and room for the output it returns the end of the stream, with exactly the output that the stream means.

**Flag cache** (`FlagTable`, `FlagCache`). The daemon's shared table of process flags: open addressing
under a sequence lock. Proved: a stable table is a map, and probing is lookup; in every interleaving of
single loads and stores, any number of readers, no torn or mixed answer is ever served, as long as fewer
than 2^31 writes begin during one read, and that bound is sharp; and a reader gives the cache up only when it was
disturbed: while no section is open or begins, it answers what the map holds.

**ELF loader** (`Sleb128`, `PackedRelocs`, `Relr`, `Relocation`, `RelocationMeaning`, `RelocationWords`, `Segments`,
`SymbolHash`, `SymbolLookup`). Round trips of the two compact relocation formats; the same relocation set
leaves the same memory in every format, and each target holds the word that its type promises; the two ways of
mapping segments give the same image; hash lookup is linear search, and the hashes are closed formulas.

**Init monitor** (`MonitorState`, `MonitorAnswers`, `Monitor`, `PropFile`, `PropStability`). The ptrace monitor as a
state machine over every sequence of events the kernel allows, and the object whose handlers take its steps: its
fields are always those that some run leads to, so every property of runs holds of it. What every stop is answered
with, over every run, so that init gets the signals sent to it; the crash-loop counter over runs; and the property
file, which survives restarts exactly under a stated condition on its lines.

**Address ranges** (`MapRanges`). The collection of a loaded object's ranges and their in-place normaliser.

`BitArithmetic` holds machine words and bit operations on integers, `Options` the optional value.

Time, forks, pids, file contents, the results of symbol resolution and of ifunc resolvers, and what a wait
reports are parameters. Kernel calls succeed unless a result is passed in. Memory accesses of different
processes are sequentially consistent.

Where the code differs from its comments, or from what a caller may expect, the model follows the code:

- The comment on the input bound speaks of 22 modelled and 26 direct bits as the worst case. Exactly the matches
  of length 18 or more at a distance from 64 to 127 have more than 22 modelled bits: 23, and no direct one
  (`LzmaCounts.MoreThanTwentyTwo`). The bound of 20 bytes holds for them too.
- The dictionary's comment says that the position never passes the limit. Stored chunks move the position without
  moving the limit, and one stored byte after a reset passes it (`LzDictionary.LimitPassed`). It is kept by a stored
  chunk exactly if the position that the bytes moved lead to, around the buffer, is not beyond the limit
  (`Uncompressed`).
- The comment on the reservation says that it honours the largest alignment of the segments. The start of the
  mapping has it, but a segment keeps its place within that alignment exactly if the lowest page has it
  (`Segments.BiasPlaces`, and `MisalignedModule` for a module that does not).
- The range check of a relocation covers the first byte of the word stored. The whole word is inside the image
  exactly if its eighth byte is (`RelocationMeaning.StaysInside`, and `LastByteStores` for one that is not).
- The comment on the candidates says that a process handed over to an injector no longer belongs among them. It
  stays there, since the status looked at is by then that of the second wait: after an exec a process is a candidate
  exactly if it was handed over (`MonitorState.HandedOver`, and `StaleCandidate` for such a run).
- A scan holds 64 ranges and drops what comes after. An address keeps its protection exactly if it has none or a
  range over it was held (`MapRanges.HeldMeans`, and `OneTooMany` for an object with 65 ranges).
- The symbol count of a GNU hash table is taken from its chain, which is read inside the table exactly if a symbol
  is hashed (`SymbolLookup.FirstEntryRead`, and `NothingHashed` for a table without).
- Packed relocations are read until the announced number is reached. The loop never ends exactly if the input is
  used up with every partial sum of the group sizes below that number (`PackedRelocs.DecodeStuckExactly`, and
  `ShortStream` for one such stream).
- The branch for a GNU hash table whose highest bucket lies below the first hashed symbol is never taken
  (`SymbolLookup.HighestBucket`).

## Model

| member | source | states |
|---|---|---|
| `RangeCoder.AdaptStays` | loader/src/external/lzma/xz_dec_lzma2.c:499-515 | a probability in [31, 2017] adapted by either bit stays in [31, 2017] |
| `RangeCoder.ModelledLoss` | loader/src/external/lzma/xz_dec_lzma2.c:499-515 | either outcome of a modelled bit leaves at least a 67th of a normalized range, and neither is impossible |
| `RangeCoder.ReplayValid` | loader/src/external/lzma/xz_dec_lzma2.c:480-515 | every state reached by decoding any bits from any bytes is valid: range and code are 32-bit words, the range at least TOP/67, all probabilities in [31, 2017] |
| `RangeCoder.ReplayLearns` | loader/src/external/lzma/xz_dec_lzma2.c:499-515 | the probabilities reached depend on the bits decoded alone, not on the bytes they were decoded from |
| `RangeCoder.ReadBudget` | loader/src/external/lzma/xz_dec_lzma2.c:19-26 | within a symbol, before a bit that needs another byte, at most 19 bytes were read |
| `RangeCoder.SymbolBudget` | loader/src/external/lzma/xz_dec_lzma2.c:19-26 | one symbol (22 modelled and 26 direct bits, or 23 modelled ones) reads at most 20 bytes, on every input |
| `RangeCoder.DecodeInvertsEncode` | loader/src/external/lzma/xz_dec_lzma2.c:480-567 | if the bytes lie in the interval that an exact encoder reaches for a list of bits, decoding them yields exactly those bits and the encoder's range and probabilities |
| `RangeDecoding.SignMask` | loader/src/external/lzma/xz_dec_lzma2.c:554-567 | the sign mask of a 32-bit difference selects between the difference and the old code, as the branch-free direct decoder relies on |
| `RangeDecoding.RangeDecoder.Reset` | loader/src/external/lzma/xz_dec_lzma2.c:440-445 | range all ones, code zero, five bytes to come |
| `RangeDecoding.RangeDecoder.Normalize` | loader/src/external/lzma/xz_dec_lzma2.c:480-486 | reads at most one byte and leaves a normalized state that the bits decoded so far explain |
| `RangeDecoding.RangeDecoder.Decide` | loader/src/external/lzma/xz_dec_lzma2.c:499-515 | narrows range, code and probability in place as the arithmetic of one modelled bit says |
| `RangeDecoding.RangeDecoder.Bit` | loader/src/external/lzma/xz_dec_lzma2.c:499-515 | appends exactly one modelled bit to the trace; never reads past the room a symbol was promised |
| `RangeDecoding.RangeDecoder.BitTree` | loader/src/external/lzma/xz_dec_lzma2.c:521-534 | the bits decoded are the path to the symbol returned |
| `RangeDecoding.RangeDecoder.BitTreeReverse` | loader/src/external/lzma/xz_dec_lzma2.c:537-551 | adds to the destination the value whose bits, lowest first, were decoded |
| `RangeDecoding.RangeDecoder.DirectBits` | loader/src/external/lzma/xz_dec_lzma2.c:554-567 | shifts into the destination the value whose bits, highest first, were decoded without a model |
| `RangeDecoding.RangeDecoder.SymbolReads` | loader/src/external/lzma/xz_dec_lzma2.c:19-26 | a completed symbol has advanced the input by at most 20 bytes |
| `LzDictionary.LzCopyBytes` | loader/src/external/lzma/xz_dec_lzma2.c:347-373 | an overlapping copy keeps the old bytes and repeats the byte `dist + 1` back, n times |
| `LzDictionary.LzCopyResumes` | loader/src/external/lzma/xz_dec_lzma2.c:724-733 | a copy cut in two parts is the copy done at once |
| `LzDictionary.RingWrite` | loader/src/external/lzma/xz_dec_lzma2.c:376-412 | writing a block into the ring keeps the ring a window on the history with the block appended |
| `LzDictionary.Dictionary.Reset` | loader/src/external/lzma/xz_dec_lzma2.c:286-297 | an empty history, nothing pending, position and limit zero |
| `LzDictionary.Dictionary.SetLimit` | loader/src/external/lzma/xz_dec_lzma2.c:300-306 | the limit is as far as output and buffer allow |
| `LzDictionary.Dictionary.Get` | loader/src/external/lzma/xz_dec_lzma2.c:320-330 | the byte `dist + 1` back in the unbounded history, or zero if there is none |
| `LzDictionary.Dictionary.Put` | loader/src/external/lzma/xz_dec_lzma2.c:334-340 | appends one byte to the history; `full` is the highest position ever reached |
| `LzDictionary.Dictionary.Repeat` | loader/src/external/lzma/xz_dec_lzma2.c:347-373 | refuses exactly distances not below `full`; otherwise appends the LZ77 copy, as far as the limit, and says what is left |
| `LzDictionary.Dictionary.Uncompressed` | loader/src/external/lzma/xz_dec_lzma2.c:376-412 | moves the same bytes from the input to the history and to the output, as many as chunk, input and output all have; the position goes around the buffer by as many, and is within the limit exactly if that leads there |
| `LzDictionary.LapAgain` | loader/src/external/lzma/xz_dec_lzma2.c:376-412 | going around the buffer in two writes leads where one write does |
| `LzDictionary.LimitPassed` | loader/src/external/lzma/xz_dec_lzma2.c:31-33 | a dictionary in order whose history is the one byte stored after a reset, with its position beyond its limit |
| `LzDictionary.Dictionary.FullIsWindow` | loader/src/external/lzma/xz_dec_lzma2.c:334-373 | `full` is the length of the history, or the size of the buffer if that is less |
| `LzDictionary.Dictionary.Flush` | loader/src/external/lzma/xz_dec_lzma2.c:418-433 | delivers exactly the part of the history not yet delivered, whatever the cuts before |
| `LzmaPackets.LiteralStates` | loader/src/external/lzma/xz_lzma2.h:58-96 | the state after a packet is one of the seven literal states exactly if the packet was a literal |
| `LzmaPackets.SlotBounds` | loader/src/external/lzma/xz_dec_lzma2.c:648-684 | a distance lies in the range of its slot |
| `LzmaPackets.SlotOf` | loader/src/external/lzma/xz_dec_lzma2.c:648-684 | every distance in the range of a slot has that slot |
| `LzmaPackets.JoinRuns` | loader/src/external/lzma/xz_dec_lzma2.c:724-763 | packets decoded in two runs mean and spell what they do in one |
| `LzmaReference.StateTold` | loader/src/external/lzma/xz_lzma2.h:39-90 | over every packet sequence each of the twelve states is told, both ways, by the kinds of the latest three packets and those behind them: which were literals, matches, long repeats, and short repeats behind a literal or behind another copy |
| `LzmaReference.DistancesTold` | loader/src/external/lzma/xz_dec_lzma2.c:648-720 | what becomes of the four distances, place by place, and which one a packet copies from |
| `LzmaReference.BackAndForth` | loader/src/external/lzma/xz_dec_lzma2.c:701-717 | going back to the distance before the last twice changes nothing |
| `LzmaReference.Recalled` | loader/src/external/lzma/xz_dec_lzma2.c:690-720 | after four matches a repeat of index i copies from the i-th latest of them |
| `LzmaReference.AdaptTold` | loader/src/external/lzma/xz_dec_lzma2.c:499-515 | a probability moves by a 32nd of its way to 0 or 2048, rounded down |
| `LzmaReference.ShareTold` | loader/src/external/lzma/xz_dec_lzma2.c:499-515 | a zero bit has the share of the range that its probability says, in 2048ths of the range rounded down |
| `LzmaReference.NormalizeTold` | loader/src/external/lzma/xz_dec_lzma2.c:480-486 | a byte is read exactly below 2^24, into the low end of the code, and brings a range of at least 2^16 to 2^24 or more |
| `LzmaReference.OneProbabilityEach` | loader/src/external/lzma/xz_dec_lzma2.c:115-212 | every element of every probability array has a place of its own in the flat array |
| `LzmaReference.OneContextEach` | loader/src/external/lzma/xz_dec_lzma2.c:115-212 | and every place is that of an element |
| `LzmaReference.SpelledAsTold` | loader/src/external/lzma/xz_dec_lzma2.c:574-721 | every packet in every place is spelled bit by bit as told from the arrays: which element each bit is coded with, trees from the top or from the bottom, a literal after a copy predicted while it agrees, the low bits of the position and the high bits of the byte before |
| `LzmaCounts.PacketCount` | loader/src/external/lzma/xz_dec_lzma2.c:583-721 | every packet is spelled, wherever it stands, with exactly the numbers of modelled and direct bits that the formulas give |
| `LzmaCounts.MoreThanTwentyTwo` | loader/src/external/lzma/xz_dec_lzma2.c:19-26 | more than 22 modelled bits have exactly the matches of length 18 or more at a distance from 64 to 127, which have 23 and no direct bit |
| `LzmaCounts.TwentyThreeBits` | loader/src/external/lzma/xz_dec_lzma2.c:19-26 | one such match, at the start of a stream, is spelled with 23 modelled bits |
| `LzmaCounts.EveryPacketAffordable` | loader/src/external/lzma/xz_dec_lzma2.c:19-26 | the bits of every packet are within those that the budget of 20 bytes was proved for |
| `LzmaUnique.ForkDecides` | loader/src/external/lzma/xz_dec_lzma2.c:499-567 | a stream of bytes decodes to at most one of two spellings that fork |
| `LzmaUnique.PacketForks` | loader/src/external/lzma/xz_dec_lzma2.c:583-721 | different packets in the same place are spelled so that they fork at a bit decided by one context |
| `LzmaUnique.SessionForks` | loader/src/external/lzma/xz_dec_lzma2.c:724-763 | of two packet sequences one continues the other, or their spellings fork |
| `LzmaUnique.OneReading` | loader/src/external/lzma/xz_dec_lzma2.c:724-763 | two packet sequences that the same bytes decode to agree on all of the shorter one |
| `LzmaUnique.DecodesWhatWasEncoded` | loader/src/external/lzma/xz_dec_lzma2.c:724-763 | from an encoding of a packet sequence, a decoder that reads as many bytes of history reads exactly those packets |
| `LzmaComplete.EncodingDecodes` | loader/src/external/lzma/xz_dec_lzma2.c:480-567 | decoding an encoding yields its bits, reads exactly its bytes with the last normalization, and ends with the code at zero |
| `LzmaComplete.NextIsEncoded` | loader/src/external/lzma/xz_dec_lzma2.c:724-763 | on bytes that agree with a payload that decodes to some packets, the packet decoded next is the next of those |
| `LzmaComplete.OnePayload` | loader/src/external/lzma/xz_dec_lzma2.c:724-763 | a payload decodes without remainder to one packet sequence of a given size only |
| `LzmaComplete.SpentDecodes` | loader/src/external/lzma/xz_dec_lzma2.c:757-763 | a decoder that has read a whole payload and is left with the code at zero has decoded it without remainder |
| `LzmaComplete.DecodedArePrefix` | loader/src/external/lzma/xz_dec_lzma2.c:724-763 | on such bytes, the packets decoded are the first of those |
| `LzmaComplete.ReadsWithin` | loader/src/external/lzma/xz_dec_lzma2.c:757-763 | on such bytes, no more is read than the payload has, and after the last packet all is read and the code is zero |
| `LzmaEncoder.SessionBounded` | loader/src/external/lzma/xz_lzma2.h:195 | every context that packets are spelled with is among the 14134 probabilities |
| `LzmaEncoder.EverythingEncodes` | loader/src/external/lzma/xz_dec_lzma2.c:724-763 | every legal sequence of packets has an encoding, from any probabilities in range |
| `LzmaDecoding.Lzma.ResetState` | loader/src/external/lzma/xz_dec_lzma2.c:769-793 | state 0, distances 0, every probability one half |
| `LzmaDecoding.Lzma.SetProps` | loader/src/external/lzma/xz_dec_lzma2.c:801-823 | accepts a properties byte exactly if it spells valid lc, lp and pb, and sets those |
| `LzmaDecoding.Lzma.LiteralProbs` | loader/src/external/lzma/xz_dec_lzma2.c:574-580 | the literal coder chosen by the previous byte and the position, inside the probability array |
| `LzmaDecoding.Lzma.Literal` | loader/src/external/lzma/xz_dec_lzma2.c:583-618 | the bits decoded spell the byte appended, plain or predicted by the byte at the last distance; the state is then the one that `LzmaReference.StateTold` tells by the latest packets |
| `LzmaDecoding.Lzma.MatchedLiteral` | loader/src/external/lzma/xz_dec_lzma2.c:598-614 | the bits decoded are the path of the literal under the prediction of the match byte |
| `LzmaDecoding.Lzma.Length` | loader/src/external/lzma/xz_dec_lzma2.c:621-645 | the bits decoded spell the length, from 2 to 273 |
| `LzmaDecoding.Lzma.Distance` | loader/src/external/lzma/xz_dec_lzma2.c:660-684 | the bits decoded spell the distance, which fits 32 bits |
| `LzmaDecoding.Lzma.Match` | loader/src/external/lzma/xz_dec_lzma2.c:648-684 | the bits decoded spell the match; the four distances shift |
| `LzmaDecoding.Lzma.RepMatch` | loader/src/external/lzma/xz_dec_lzma2.c:690-720 | the bits decoded spell the repeat; the distance used moves to the front |
| `LzmaDecoding.Lzma.Symbol` | loader/src/external/lzma/xz_dec_lzma2.c:739-755 | one symbol is one packet: its bits, its effect on state, distances and history, corrupt distances refused, at most 20 bytes read |
| `LzmaDecoding.Lzma.DecodeSymbols` | loader/src/external/lzma/xz_dec_lzma2.c:724-763 | for every input: reads only below the limit plus 21, and on success there are packets whose bits were decoded and whose meaning is the new state and history, the pending copy included |
| `Lzma2Decoding.Lzma2.FromTemp` | loader/src/external/lzma/xz_dec_lzma2.c:870-905 | decodes from the 63-byte buffer what straddles two inputs, never past what was copied there |
| `Lzma2Decoding.Lzma2.FromInput` | loader/src/external/lzma/xz_dec_lzma2.c:907-921 | decodes from the caller's input, never past its end or the chunk's |
| `Lzma2Decoding.Lzma2.Feed` | loader/src/external/lzma/xz_dec_lzma2.c:848-927 | however the input is cut, the bytes taken are the input's, the two buffers are never read outside, and the packets decoded explain the history |
| `Lzma2Control.DictSizeGrows` | loader/src/external/lzma/xz_dec_lzma2.c:1127-1135 | the dictionary sizes of the property bytes 0 to 39 increase strictly |
| `Lzma2Control.DictSizeValue` | loader/src/external/lzma/xz_dec_lzma2.c:1127-1135 | the bytes 2k and 2k + 1 mean 2 and 3 times 2^(k + 11) |
| `Lzma2Stream.LzmaHeaderInverts` | loader/src/external/lzma/xz_dec_lzma2.c:984-1038 | any five bytes of which the first is an LZMA control byte are the header of the kind and sizes they announce |
| `Lzma2Stream.LzmaHeaderAnnounces` | loader/src/external/lzma/xz_dec_lzma2.c:984-1038 | the header built from any kind and sizes announces just those |
| `Lzma2Stream.StoredHeaderInverts` | loader/src/external/lzma/xz_dec_lzma2.c:1002-1038 | any three bytes are the stored header of what they announce |
| `Lzma2Stream.StoredHeaderAnnounces` | loader/src/external/lzma/xz_dec_lzma2.c:1002-1038 | the stored header built from a size announces that size |
| `Lzma2Stream.InitCodeValue` | loader/src/external/lzma/xz_dec_lzma2.c:451-462 | shifting in five bytes leaves the last four as a big-endian word |
| `Lzma2Stream.MeaningModelled` | loader/src/external/lzma/xz_dec_lzma2.c:769-823 | whatever chunks came before, all 14134 probabilities are there and in range |
| `Lzma2Stream.OneChunk` | loader/src/external/lzma/xz_dec_lzma2.c:933-1101 | in one place, two legal chunks whose bytes agree as far as both go are the same chunk, packets included |
| `Lzma2Stream.OneScript` | loader/src/external/lzma/xz_dec_lzma2.c:933-1101 | of two streams whose bytes agree as far as both go, one continues the other |
| `Lzma2Stream.OneEnd` | loader/src/external/lzma/xz_dec_lzma2.c:974-975 | bytes are those of one whole stream at most: two that agree end at the same chunk |
| `Lzma2Stream.DoomedStream` | loader/src/external/lzma/xz_dec_lzma2.c:933-1101 | if no legal chunk begins with the bytes at hand, no stream does |
| `Lzma2Stream.BadControl` | loader/src/external/lzma/xz_dec_lzma2.c:977-1008 | no legal chunk begins with a control byte that may not come next |
| `Lzma2Stream.BadProps` | loader/src/external/lzma/xz_dec_lzma2.c:1040-1042 | no legal chunk has a properties byte that spells no properties |
| `Lzma2Stream.TooShort` | loader/src/external/lzma/xz_dec_lzma2.c:1046-1048 | no legal LZMA chunk announces fewer than five bytes |
| `Lzma2Stream.OutputGrows` | loader/src/external/lzma/xz_dec_lzma2.c:933-1101 | what a stream has output stays output as it goes on |
| `Lzma2Stream.ChunkOutputs` | loader/src/external/lzma/xz_dec_lzma2.c:933-1101 | a chunk adds as many bytes to the output as it announces |
| `Lzma2Stream.EverythingSpelled` | loader/src/external/lzma/xz_dec_lzma2.c:933-1101 | any packets of a size that can be announced have a legal chunk where one may come, unless their encoding is too long for a header |
| `Lzma2Reference.PlaceTold` | loader/src/external/lzma/xz_dec_lzma2.c:977-1044 | over every stream: the dictionary is ready exactly if some chunk reset it, the properties exactly if some chunk set them since, they are those set last, and the state is told by the packets since it was last reset |
| `Lzma2Reference.Discipline` | loader/src/external/lzma/xz_dec_lzma2.c:977-1014 | a stream begins with a chunk that resets the dictionary, and packed chunks behind a reset with one that sets properties |
| `Lzma2Reference.AllowedExactly` | loader/src/external/lzma/xz_dec_lzma2.c:977-1014 | a chunk may come next exactly if it keeps to that |
| `Lzma2Reference.NoSuchControl` | loader/src/external/lzma/xz_dec_lzma2.c:1002-1008 | control bytes from 0x03 to 0x7F never may |
| `Lzma2Reference.StartTold` | loader/src/external/lzma/xz_dec_lzma2.c:977-1054 | each kind of packed chunk starts from just what it does not reset: state, distances, the 14134 probabilities, the history; the range decoder starts with a full range and the last four of its five bytes |
| `Lzma2Reference.StoredKeeps` | loader/src/external/lzma/xz_dec_lzma2.c:1090-1096 | a stored chunk adds its bytes to the history and leaves state, distances, properties and probabilities alone |
| `Lzma2Reference.SizesTold` | loader/src/external/lzma/xz_dec_lzma2.c:984-1038 | sizes are big-endian numbers less one, the uncompressed one with its top five bits in the control byte |
| `Lzma2Reference.UsualProps` | loader/src/external/lzma/xz_dec_lzma2.c:801-823 | lc 3, lp 0, pb 2 are written as 0x5D |
| `Lzma2Control.Lzma2Decoder.Setup` | loader/src/external/lzma/xz_dec_lzma2.c:1127-1163 | accepts property bytes up to 39 whose size fits the limit, and makes a fresh decoder of that dictionary size |
| `Lzma2Control.Lzma2Decoder.ReadControl` | loader/src/external/lzma/xz_dec_lzma2.c:940-1014 | a control byte is refused exactly if that chunk may not come next: before a dictionary reset, with a state never set up, or of no kind; zero ends the stream; any other begins its chunk |
| `Lzma2Control.Lzma2Decoder.ReadSize` | loader/src/external/lzma/xz_dec_lzma2.c:1016-1032 | a size byte is recorded where it belongs, and is the next byte of the chunk |
| `Lzma2Control.Lzma2Decoder.ReadLastSize` | loader/src/external/lzma/xz_dec_lzma2.c:1034-1038 | after the last size byte the sizes are as the header states them, and what the control byte chose comes next |
| `Lzma2Control.Lzma2Decoder.HeaderEncodes` | loader/src/external/lzma/xz_dec_lzma2.c:984-1038 | the header that announced the current chunk is the encoding of its kind and sizes |
| `Lzma2Control.Lzma2Decoder.ReadProps` | loader/src/external/lzma/xz_dec_lzma2.c:1040-1044 | a properties byte is refused exactly if it spells no valid properties; else it sets those and a fresh LZMA state |
| `Lzma2Control.Lzma2Decoder.Prepare` | loader/src/external/lzma/xz_dec_lzma2.c:1046-1054 | five bytes go to the range decoder, over any number of inputs, before the first symbol |
| `Lzma2Control.Lzma2Decoder.DecodeSome` | loader/src/external/lzma/xz_dec_lzma2.c:1056-1071 | what is delivered is what was decoded, and the remaining size falls by just that |
| `Lzma2Control.Lzma2Decoder.CompleteIsLegal` | loader/src/external/lzma/xz_dec_lzma2.c:1073-1082 | a chunk with both sizes, the copy and the code spent is a legal one, spelled by the bytes read of it, and leads to the decoder's present state, probabilities included |
| `Lzma2Control.Lzma2Decoder.FinishChunk` | loader/src/external/lzma/xz_dec_lzma2.c:1073-1082 | a chunk ends only with both sizes and the range coder exactly spent; then the script has grown by it |
| `Lzma2Control.Lzma2Decoder.AnnouncedFinishes` | loader/src/external/lzma/xz_dec_lzma2.c:1073-1082 | a chunk that has put out its declared size from the bytes of a legal one has no input, copy or code left over, and its packets are those |
| `Lzma2Control.Lzma2Decoder.RefusedIsCorrupt` | loader/src/external/lzma/xz_dec_lzma2.c:848-927 | if decoding a chunk fails, the bytes known of it begin no payload of its declared sizes that decodes within the window |
| `Lzma2Control.Lzma2Decoder.RefutedIsDoomed` | loader/src/external/lzma/xz_dec_lzma2.c:848-927 | if decoding a chunk fails, no legal chunk begins with the bytes read and known |
| `Lzma2Control.Lzma2Decoder.LeftOverIsDoomed` | loader/src/external/lzma/xz_dec_lzma2.c:1073-1082 | if something is left over when the declared output is complete, no legal chunk begins with the bytes read |
| `Lzma2Control.Lzma2Decoder.ReadyToDecode` | loader/src/external/lzma/xz_dec_lzma2.c:938-1100 | whenever LZMA data is decoded, the dictionary was reset and properties parsed since, and a non-literal state has rep0 below `full` |
| `Lzma2Control.Lzma2Decoder.Conserved` | loader/src/external/lzma/xz_dec_lzma2.c:1056-1088 | inside a chunk, output delivered plus output to come is the declared size, and so for the input |
| `Lzma2Control.Lzma2Decoder.RunLzma` | loader/src/external/lzma/xz_dec_lzma2.c:1056-1088 | one round makes progress, or stops for input or room, or refuses the chunk when no legal one begins with its bytes; all it took is input |
| `Lzma2Control.Lzma2Decoder.CopyStored` | loader/src/external/lzma/xz_dec_lzma2.c:1090-1096 | a stored chunk ends when its size is spent; its bytes are input, history and output alike |
| `Lzma2Control.Lzma2Decoder.OutputIsMeaning` | loader/src/external/lzma/xz_dec_lzma2.c:1056-1096 | between chunks the output is what the chunks so far mean |
| `Lzma2Control.Lzma2Decoder.CurrentUnfinished` | loader/src/external/lzma/xz_dec_lzma2.c:1016-1096 | while a chunk is being read, the bytes read of it are not all of a legal one |
| `Lzma2Control.Lzma2Decoder.OutputOwed` | loader/src/external/lzma/xz_dec_lzma2.c:1056-1096 | while its payload is being read, the chunk has output to come |
| `Lzma2Control.Lzma2Decoder.Run` | loader/src/external/lzma/xz_dec_lzma2.c:933-1101 | on any input, cut anywhere, into any output: terminates; the bytes consumed are the chunks completed and the beginning of one, and what is delivered is what they mean; stops only for input or room with more to come, at the end of a stream, or when no legal stream begins with the bytes at hand; on the bytes of a legal stream never an error, at the end the output it means, and the end is reached once all bytes and room for all output are there |
| `FlagTable.Unique` | zygiskd/src/zygiskd.rs:1132-1151 | no uid is in two slots |
| `FlagTable.SlotTold` | loader/src/common/daemon.cpp:122-141 | the k-th slot probed for a uid is the uid plus k modulo 8192 |
| `FlagTable.OneMap` | zygiskd/src/zygiskd.rs:1132-1151 | a stable table determines the map it stands for |
| `FlagTable.FullCount` | zygiskd/src/zygiskd.rs:1149-1151 | the table has no empty slot exactly if its map has 8192 entries |
| `FlagTable.ProbeHit` | loader/src/common/daemon.cpp:129-136 | a probe that meets the uid has the map's flags |
| `FlagTable.ProbeMiss` | loader/src/common/daemon.cpp:137-141 | a probe that meets an empty slot, or comes round, proves the uid absent |
| `FlagTable.StoreEmpty` | zygiskd/src/zygiskd.rs:1137-1146 | filling the first empty slot of the probe adds the uid to the map |
| `FlagTable.StoreFound` | zygiskd/src/zygiskd.rs:1137-1146 | overwriting the slot of the uid updates the map |
| `FlagTable.StoreNowhere` | zygiskd/src/zygiskd.rs:1148-1155 | coming round means that the map is full without the uid, and stays as it is |
| `FlagTable.ShmLayout.constructor` | zygiskd/src/zygiskd.rs:1057-1062 | version 0 and a table that stands for the empty map |
| `FlagTable.ShmLayout.InvalidateAll` | zygiskd/src/zygiskd.rs:1081-1100 | the empty map, the version up by two, modulo 2^32 |
| `FlagTable.ShmLayout.CacheProcessFlags` | zygiskd/src/zygiskd.rs:1121-1161 | the map updated, unless full of others; the version up by two |
| `FlagTable.ShmLayout.Insert` | zygiskd/src/zygiskd.rs:1132-1155 | probing stops within 8192 slots, and inserts unless the table is full of others |
| `FlagTable.ShmLayout.Query` | loader/src/common/daemon.cpp:119-152 | the answer is the map's: cached flags if the uid is there, else the daemon is asked |
| `FlagCache.WriteKeepsTable` | zygiskd/src/zygiskd.rs:1121-1161 | at every single store of a write the table is what the write has made of the map so far |
| `FlagCache.RunsKeepInv` | zygiskd/src/zygiskd.rs:1081-1161 | in every interleaving of writers, flushes and readers the invariant holds |
| `FlagCache.StableTable` | zygiskd/src/zygiskd.rs:1081-1161 | whenever the version is even the table stands for the map of the writes completed |
| `FlagCache.NoTornRead` | loader/src/common/daemon.cpp:119-152 | in every run, flags served from the cache are those the map held for that uid when the reader loaded the version, unless 2^31 writes began meanwhile |
| `FlagCache.ServedIsLatest` | loader/src/common/daemon.cpp:119-152 | in every run, flags served are those cached last for the uid, with no flush since, as of the load of the version |
| `FlagCache.NoLostEntry` | loader/src/common/daemon.cpp:119-141 | in every run, a reader that finds nothing, with no section open or begun since it loaded the version, asked for a uid not in the map |
| `FlagCache.BusyExactly` | loader/src/common/daemon.cpp:120-121 | in every run, a reader is turned away by its first load exactly if a write section is open at that step |
| `FlagCache.ChangedExactly` | loader/src/common/daemon.cpp:143-151 | in every run, it is turned away by its last load only if a section has begun since the first, and within 2^31 sections exactly then |
| `FlagCache.QuietReader` | loader/src/common/daemon.cpp:119-152 | in every run, a reader from whose first step to its last no section is open or begins is never turned away: when it is done it answers the flags that the map holds for its uid, or that the daemon has to be asked if there are none |
| `FlagCache.ReadersFinish` | loader/src/common/daemon.cpp:126-141 | in every run, each reader has its answer within 8195 steps of its own |
| `FlagCache.WrappedRead` | loader/src/common/daemon.cpp:119-152 | with exactly 2^31 writes during a read the bound is reached: a run in which the reader serves flags that the map did not hold |
| `Sleb128.RoundTrip` | loader/src/linker/relocate.cpp:10-25 | decoding the encoding of any integer gives it back, with the bytes behind it |
| `Sleb128.SlebTold` | loader/src/linker/relocate.cpp:10-25 | a number of n bytes is the sum of their low seven bits, lowest first, less 2^(7n) if bit 6 of the last is set |
| `Sleb128.CutOffTold` | loader/src/linker/relocate.cpp:10-25 | a number that the input ends in is the sum of its bits, without a sign |
| `Sleb128.ReadSleb128` | loader/src/linker/relocate.cpp:10-25 | the loop of shifts and ors returns the number's value as a signed 64-bit word and the position behind it; bytes missing at the end count as zero |
| `Sleb128.OrBits` | loader/src/linker/relocate.cpp:17-18 | or-ing in seven bits above those read is adding them, modulo 2^64 |
| `Sleb128.OrSign` | loader/src/linker/relocate.cpp:21-23 | or-ing in the sign bits is subtracting the power of two |
| `PackedRelocs.ForEachPackedReloc` | loader/src/linker/relocate.cpp:37-86 | the loop emits exactly what the stream spells, or refuses the magic, or stops making progress where the input ends early |
| `PackedRelocs.ShortStream` | loader/src/linker/relocate.cpp:51-86 | a stream that announces one relocation and ends there gets stuck in the group loop |
| `PackedRelocs.StuckExactly` | loader/src/linker/relocate.cpp:55-86 | the group loop is stuck exactly if the input is used up after some groups with every partial sum of their sizes below the total |
| `PackedRelocs.DecodeStuckExactly` | loader/src/linker/relocate.cpp:37-86 | the same of a whole stream, from its magic on |
| `PackedRelocs.DecodeGroup` | loader/src/linker/relocate.cpp:55-83 | one group: head, carried values and members as the flags say |
| `PackedRelocs.StuckForEver` | loader/src/linker/relocate.cpp:55-86 | with no input left a turn of the loop emits nothing and counts nothing, and the next changes nothing |
| `PackedRelocs.WalkEmitsAll` | loader/src/linker/relocate.cpp:55-86 | a decoder that finishes has emitted at least the announced number |
| `PackedRelocs.GroupRoundTrip` | loader/src/linker/relocate.cpp:55-84 | a group encoded under any fitting flags decodes to its relocations and leaves the running values of the last |
| `PackedRelocs.StreamRoundTrip` | loader/src/linker/relocate.cpp:37-86 | every grouping that fits decodes to the relocations it groups, in order, values carried across groups and addends reset without HAS_ADDEND |
| `PackedRelocs.UngroupedRoundTrip` | loader/src/linker/relocate.cpp:37-86 | every list of relocations has an encoding that decodes to it |
| `PackedRelocs.FlagsTold` | loader/src/linker/relocate.cpp:28-31 | the four flags are the bits 1, 2, 4 and 8 of the group word |
| `PackedRelocs.SharedHead` | loader/src/linker/relocate.cpp:57-75 | with all flags, size, flags, offset step, info and addend step are read in this order |
| `PackedRelocs.SharedMembers` | loader/src/linker/relocate.cpp:77-82 | its members are at equal steps and share info and addend |
| `PackedRelocs.ApartGroup` | loader/src/linker/relocate.cpp:55-83 | with addends and nothing shared, a member reads offset step, info and addend step in this order |
| `PackedRelocs.BareGroup` | loader/src/linker/relocate.cpp:55-83 | without addends they are zero |
| `PackedRelocs.TinyStream` | loader/src/linker/relocate.cpp:37-86 | a stream of APS2, a count, the first offset and one group, in bytes |
| `Relr.ForEachRelr` | loader/src/linker/relocate.cpp:90-108 | the loop emits the addresses that the table selects, modulo 2^64 |
| `Relr.SelectWords` | loader/src/linker/relocate.cpp:101-105 | the bitmap loop emits the words whose bits are set, in order |
| `Relr.BitmapSelects` | loader/src/linker/relocate.cpp:101-106 | the bitmap of the offsets it covers selects exactly those |
| `Relr.EncodeRoundTrip` | loader/src/linker/relocate.cpp:90-108 | for every increasing list of word-aligned offsets, decoding its encoding emits each once, in order, with the bias added |
| `Relr.SelectedHasBit` | loader/src/linker/relocate.cpp:101-105 | a word that a bitmap selects is k words from its base for a bit k that is set |
| `Relr.BitIsSelected` | loader/src/linker/relocate.cpp:101-105 | and for every such bit that word is selected |
| `Relr.ThreeEntries` | loader/src/linker/relocate.cpp:90-108 | an address and two bitmaps, the second 63 words further on than the first |
| `Relocation.Relocator.ApplyOne` | loader/src/linker/linker.cpp:541-629 | one relocation: range check, type, symbol, the word stored or the error; what word and which error that is, by type, is said by `RelocationWords.WordByType` and `FailsExactly` |
| `Relocation.Relocator.ApplyTable` | loader/src/linker/linker.cpp:648-656 | a plain table up to its first failure, with addends given or in place |
| `Relocation.Relocator.Relocate` | loader/src/linker/linker.cpp:526-676 | all tables in order, RELR first, with the error paths of each |
| `RelocationMeaning.WordRoundTrip` | loader/src/linker/linker.cpp:564-566 | a word stored is the word read back |
| `RelocationWords.LowestFirst` | loader/src/linker/linker.cpp:564-566 | words are stored with the lowest byte first |
| `RelocationMeaning.ApplyAllAt` | loader/src/linker/linker.cpp:541-629 | independent relocations leave in memory every target's bytes and nothing else new |
| `RelocationMeaning.StoppingOrNot` | loader/src/linker/linker.cpp:638-651 | stopping at the first failure or carrying on succeed for the same tables with the same memory, and report the first and the last error |
| `RelocationMeaning.PackedMeansPlain` | loader/src/linker/linker.cpp:638-651 | a relocation set in any packed grouping loads exactly when its plain table does, with the same memory; the errors are the first and the last |
| `RelocationMeaning.ErrorsDiffer` | loader/src/linker/linker.cpp:638-651 | the two errors do differ, on a TLS relocation followed by one outside the image |
| `RelocationMeaning.RelativeByType` | loader/src/linker/linker.cpp:541-568 | relocations of the relative type inside the image never fail and store bias plus addend |
| `RelocationMeaning.StaysInside` | loader/src/linker/linker.cpp:545-553 | a store stays inside the image exactly if its eighth byte does |
| `RelocationMeaning.LastByteStores` | loader/src/linker/linker.cpp:545-553 | a relative relocation of the last byte of any image passes the check and stores outside |
| `RelocationMeaning.AddBiasAt` | loader/src/linker/linker.cpp:632-636 | adding the bias to words that hold the addends is applying the relative relocations |
| `RelocationMeaning.RelrMeansPlain` | loader/src/linker/linker.cpp:632-651 | moving any word-aligned relative relocations of independent targets to RELR, with the addends in place, leaves the same memory, whatever the order of the table |
| `RelocationWords.LoadRuns` | loader/src/linker/linker.cpp:631-676 | a load that succeeds leaves what its entries leave one after another, RELR first, then packed, RELA, REL and PLT entries |
| `RelocationWords.TargetWord` | loader/src/linker/linker.cpp:541-676 | after any successful load, the word at the target of an entry that no later one overlaps is the one the entry stores, with its own addend or the word then in place |
| `RelocationWords.InPlace` | loader/src/linker/linker.cpp:652-656 | an addend in place is the word that was there when RELR was done, if no entry before overlaps it |
| `RelocationWords.WordByType` | loader/src/linker/linker.cpp:564-629 | that word by type and for every symbol: bias plus addend, what the resolver there says, the address of the symbol, or that plus the addend; the address is here, or where its resolver says, or elsewhere, or 0 for a weak one that is nowhere |
| `RelocationWords.AddendCounts` | loader/src/linker/linker.cpp:604-623 | of two loads with the same entries but for one addend, the words at that target differ by the difference modulo 2^64 for ABS, and not at all for JUMP_SLOT and a GLOB_DAT of its own type |
| `RelocationWords.FailsExactly` | loader/src/linker/linker.cpp:545-629 | exactly which entries fail and with which error, and which are skipped |
| `Segments.PageStartMasks` | loader/src/linker/linker.cpp:29-30 | the start of a page is the address with its low bits cleared |
| `Segments.SegmentMapper.MapSegments` | loader/src/linker/linker.cpp:83-197 | fails only without segments or when a segment to be read is not all in the file; the mapping lies in the reservation, its start aligned for every segment, every segment inside, filled as specified; the bias is a multiple of the largest alignment, and segments keep their place within it, exactly if the lowest page is aligned so |
| `Segments.BiasPlaces` | loader/src/linker/linker.cpp:87-132 | for any segments and any aligned base: bias and places are aligned exactly if the lowest page is |
| `Segments.SpanAttained` | loader/src/linker/linker.cpp:87-107 | some segment begins at the lowest address and some segment ends at the highest |
| `Segments.AlignAttained` | loader/src/linker/linker.cpp:87-107 | the alignment is a page or the largest that a segment asks for |
| `Segments.MisalignedModule` | loader/src/linker/linker.cpp:87-132 | a module at page 0x1000 that asks for 64 KiB is one whose lowest page is not |
| `Segments.SegmentMapper.Trim` | loader/src/linker/linker.cpp:118-125 | what is left of the reservation is exactly the span needed |
| `Segments.SegmentMapper.FillSegment` | loader/src/linker/linker.cpp:140-196 | one segment, read in or mapped, with its zero fill |
| `Segments.FillInside` | loader/src/linker/linker.cpp:140-196 | each byte of a segment is the file's byte, or zero behind the file part, by reading or by mapping |
| `Segments.FillOutside` | loader/src/linker/linker.cpp:140-196 | filling a segment changes no page of another |
| `Segments.FillDefines` | loader/src/linker/linker.cpp:134-197 | after all segments every byte of every segment is as the file defines it |
| `Segments.SameImage` | loader/src/linker/linker.cpp:83-197 | the anonymous and the file-backed image agree on every byte of every segment |
| `SymbolHash.LinkerGnuHash` | loader/src/linker/linker.cpp:403-409 | the linker's loop computes the GNU hash, which `GnuClosed` says in one formula |
| `SymbolHash.ParserGnuHash` | loader/src/include/elf_parser.hpp:195-201 | the parser's loop computes the same GNU hash |
| `SymbolHash.LinkerSysvHash` | loader/src/linker/linker.cpp:411-420 | the linker's loop computes the System V hash |
| `SymbolHash.ParserSysvHash` | loader/src/include/elf_parser.hpp:181-193 | the parser's loop computes the same System V hash |
| `SymbolHash.GnuClosed` | loader/src/linker/linker.cpp:403-409 | the GNU hash of n bytes is 5381 times 33^n plus the sum of name[i] times 33^(n - 1 - i), modulo 2^32 |
| `SymbolHash.SysvClosed` | loader/src/linker/linker.cpp:411-420 | the System V hash is below 2^28, and is the sum of name[i] times 16^(n - 1 - i) exactly if that is |
| `SymbolHash.ShortNames` | loader/src/linker/linker.cpp:411-420 | so it is for every name of up to five bytes, or of six ASCII characters |
| `SymbolHash.FoldedBits` | loader/src/linker/linker.cpp:414-417 | what folding does to each bit: the top four go, and are xor-ed onto bits 4 to 7 |
| `SymbolHash.KnownNames` | loader/src/include/elf_parser.hpp:181-201 | the GNU hash of "exit" is 0x7c967e3f and the System V hash of "syscall", which folds, 0x0b09985c |
| `SymbolHash.ChainComparisons` | loader/src/common/elf_parser.cpp:209-211 | the two ways of comparing a chain entry with a hash both compare all bits but the lowest |
| `SymbolLookup.NoFalseNegative` | loader/src/linker/linker.cpp:431-435 | a hash that the Bloom filter denies is that of no hashed symbol |
| `SymbolLookup.ScanTold` | loader/src/linker/linker.cpp:439-447 | the scan that lookups are compared with finds a symbol of the name, defined if asked for, and none later than any other |
| `SymbolLookup.BloomsTold` | loader/src/linker/linker.cpp:431-435 | the filter lets a hash through exactly if two bits of its word are set, the hash modulo 64 and the shifted hash modulo 64 |
| `SymbolLookup.WrittenTable` | loader/src/linker/linker.cpp:262-273 | a table for the one symbol "exit", in numbers, is well formed |
| `SymbolLookup.LinkerLookup` | loader/src/linker/linker.cpp:429-448 | filter, bucket and chain find the first defined symbol of the name, as a scan of the hashed symbols does |
| `SymbolLookup.ParserLookup` | loader/src/common/elf_parser.cpp:185-218 | filter, bucket and chain find the first symbol of the name, defined or not |
| `SymbolLookup.ResolversAgree` | loader/src/common/elf_parser.cpp:209-214 | the two resolvers differ exactly on names whose first hashed symbol is undefined |
| `SymbolLookup.HighestBucket` | loader/src/linker/linker.cpp:376-379 | the index found is the highest bucket or the first hashed symbol, and never below that, whatever the table holds |
| `SymbolLookup.FirstEntryRead` | loader/src/linker/linker.cpp:376-382 | on every well-formed table, the chain is first read inside the table exactly if a symbol is hashed |
| `SymbolLookup.NothingHashed` | loader/src/linker/linker.cpp:376-382 | a well-formed table without hashed symbols and without a chain |
| `SymbolLookup.DynsymCount` | loader/src/linker/linker.cpp:370-383 | with a hashed symbol, the highest bucket's chain ends at the number of symbols; without one, no value, since the chain is read behind the table |
| `SymbolLookup.BuildBloomSets` | loader/src/linker/linker.cpp:431-435 | a filter built from the symbols has the bits of each set |
| `SymbolLookup.BuildWellFormed` | loader/src/linker/linker.cpp:262-273 | symbols grouped by bucket make a table on which all of this holds |
| `SymbolLookup.SysvLookup` | loader/src/linker/linker.cpp:450-458 | a symbol is found exactly when there is one, and the scan's if it is the only one |
| `SymbolLookup.WalkChain` | loader/src/common/elf_parser.cpp:220-231 | the chain walk ends and finds the first match along the chain |
| `MonitorState.EventKeeps` | loader/src/ptracer/monitor_impl.cpp:276-814 | every event keeps the invariant, and exiting stays exiting |
| `MonitorState.RunsKeepInv` | loader/src/ptracer/monitor_impl.cpp:276-814 | over every run: tracing or stopping means that init is seized and stopped that it is not, candidates and stubs are disjoint and without init, one daemon at most, and every stop reported was answered once, in order |
| `MonitorState.ExitingForEver` | loader/src/ptracer/monitor_impl.cpp:276-325 | once exiting, the monitor stays so, whatever follows |
| `MonitorState.CommandCarriedOut` | loader/src/ptracer/monitor_impl.cpp:276-320 | start, stop and exit set the state they name unless exiting, a rearm leaves tracing on exactly if a daemon runs, and no command answers a stop |
| `MonitorState.StopAnswered` | loader/src/ptracer/monitor_impl.cpp:543-814 | a stop that is reported is the next to be answered, by an answer to that process; an exit gets none |
| `MonitorState.HandedOver` | loader/src/ptracer/monitor_impl.cpp:654-814 | a process is handed over exactly while tracing, with a daemon and no crash loop, if it halts as told; it is then let go of, and after an exec it is a candidate exactly if it was handed over |
| `MonitorState.StaleCandidate` | loader/src/ptracer/monitor_impl.cpp:680-686 | a run of three events after which a zygote is a candidate though it is no longer traced |
| `MonitorState.CandidateStep` | loader/src/ptracer/monitor_impl.cpp:543-695 | an event leaves behind a candidate that is not traced exactly by a hand-over or by the exit of a process unknown till then; else such a candidate was one before |
| `MonitorState.CandidateExplained` | loader/src/ptracer/monitor_impl.cpp:543-695 | in every run a candidate is traced, or was left behind by such an event and not traced since |
| `MonitorState.NeverFrozen` | loader/src/ptracer/monitor_impl.cpp:603-629 | over every run, no process is let go on with a signal that would stop it, and none but init with SIGCHLD |
| `MonitorAnswers.AnswersExactly` | loader/src/ptracer/monitor_impl.cpp:543-814 | the answers to a report are exactly those called for: a signal to a parent is passed on unless it is a stop signal or a stub's SIGCHLD, init is detached from when stopping, newcomers and attached candidates go on, an exec is promoted, handed over or let go of, and any other stop of a candidate ends its tracing |
| `MonitorAnswers.RunAnswers` | loader/src/ptracer/monitor_impl.cpp:543-814 | in every run the answers given are those that its reports call for, all of them and in order |
| `MonitorAnswers.InitSignals` | loader/src/ptracer/monitor_impl.cpp:599-629 | in every run init is resumed with the signals that were sent to it, in order, less those that would freeze it |
| `MonitorAnswers.SetsTold` | loader/src/ptracer/monitor_impl.cpp:543-735 | after any event a process is a stub exactly if it has just executed one, or was one and has not exited; and exactly which processes are candidates |
| `MonitorAnswers.RestTold` | loader/src/ptracer/monitor_impl.cpp:276-814 | after any event: which daemon is recorded and whether it runs, what tracing has come to, and whether the zygote counts as supported and as injected |
| `MonitorState.RunCounts` | loader/src/ptracer/zygote_abi.cpp:80-90 | in every run the counter and the time of the last start are those of the zygotes' starts in it |
| `MonitorState.CrashLoopExactly` | loader/src/ptracer/zygote_abi.cpp:80-136 | in every run a start is taken for a crash loop exactly if each of the last four starts came within 30 seconds of the one before; then tracing is told to stop and the zygote is let go of |
| `InitMonitor.ReplacedProgram` | loader/src/ptracer/monitor_impl.cpp:713-749 | a program whose file was deleted while it ran is told for what it is |
| `InitMonitor.AppMonitor.Sound` | loader/src/ptracer/monitor_impl.cpp:276-814 | the object's fields are always those a run leads to, so the invariant of runs holds of them |
| `InitMonitor.AppMonitor.HandleCommand` | loader/src/ptracer/monitor_impl.cpp:402-434 | a command extends the run by its event, keeps the invariant, and is carried out as it says |
| `InitMonitor.AppMonitor.RequestRearm` | loader/src/ptracer/monitor_impl.cpp:305-320 | the step of the state machine on a rearm request |
| `InitMonitor.AppMonitor.EnsureDaemonCreated` | loader/src/ptracer/zygote_abi.cpp:92-123 | a daemon is started only if none is on record, and the result says whether one runs |
| `InitMonitor.AppMonitor.CheckAndPrepareInjection` | loader/src/ptracer/zygote_abi.cpp:125-136 | counts the start, stops tracing in a crash loop or without a daemon |
| `InitMonitor.AppMonitor.HandleChildEvent` | loader/src/ptracer/monitor_impl.cpp:543-565 | dispatch by role: parent, daemon, candidate, newcomer |
| `InitMonitor.AppMonitor.HandleParentEvent` | loader/src/ptracer/monitor_impl.cpp:574-630 | the answer to a parent's stop: its signal is passed on, unless it is a stop signal or a stub's SIGCHLD; init is detached from when stopping |
| `InitMonitor.AppMonitor.HandleTracedProcess` | loader/src/ptracer/monitor_impl.cpp:654-695 | what becomes of a candidate |
| `InitMonitor.AppMonitor.HandleExecEvent` | loader/src/ptracer/monitor_impl.cpp:703-814 | what a program makes of a candidate, with the hand-over to an injector |
| `InitMonitor.AppMonitor.HandleReport` | loader/src/ptracer/monitor_impl.cpp:527-530 | a report extends the run by its event and keeps the invariant: a stop is the next to be answered, with just the answers it calls for, none is left unanswered, no process is resumed with a stop signal, and exiting stays exiting |
| `PropFile.PrepareEnvironment` | loader/src/ptracer/monitor_impl.cpp:191-249 | the two sections are those of the line-by-line specification |
| `PropFile.CleanDescription` | loader/src/ptracer/monitor_impl.cpp:217-238 | the stripping loop ends and leaves no decoration or leading separator |
| `PropFile.StripExactly` | loader/src/ptracer/monitor_impl.cpp:217-238 | a description is left alone exactly if it begins with no separator and no decoration |
| `PropFile.OwnSurvives` | loader/src/ptracer/monitor_impl.cpp:195-248 | every line of the file that begins with id=, name=, version=, versionCode= or author= is kept |
| `PropFile.OpeningTold` | loader/src/ptracer/monitor_impl.cpp:94-101 | the text of one decoration |
| `PropStability.ParseGood` | loader/src/ptracer/monitor_impl.cpp:199-248 | no line kept is blank, generated or another description, and each is one that can be written and read back |
| `PropStability.StripDecorated` | loader/src/ptracer/monitor_impl.cpp:88-106 | a decoration put in front of any description is stripped again |
| `PropStability.ReadBack` | loader/src/ptracer/monitor_impl.cpp:88-106 | reading back what was written gives the same lines, but for stripping the first from the description on once more |
| `PropStability.RestartStable` | loader/src/ptracer/monitor_impl.cpp:88-106 | after a restart the lines before the description are the same, and the rest exactly if its first line needs no stripping, whatever the status |
| `PropStability.SettledExactly` | loader/src/ptracer/monitor_impl.cpp:199-248 | a file is settled exactly if its first description line is missing or not empty when stripped, or the first line kept behind it needs no stripping |
| `PropStability.DescribedStable` | loader/src/ptracer/monitor_impl.cpp:88-106 | a file whose first description line is not empty when stripped is read back unchanged after a restart, whatever the status |
| `PropStability.RestartUnstable` | loader/src/ptracer/monitor_impl.cpp:240-243 | a file with an empty description, followed by an indented line, is changed by a restart, whatever the status |
| `MapRanges.SplitMeans` | loader/src/injector/clean.cpp:425-435 | splitting a segment changes only the write permission of the sealed pages |
| `MapRanges.PiecesMean` | loader/src/injector/clean.cpp:414-436 | the pieces of all segments give every address what the first segment over it does, without write permission where sealed |
| `MapRanges.LoadedObjectScan.AddLoadedRange` | loader/src/injector/clean.cpp:377-380 | the table holds one range more, unless that is empty or 64 are held |
| `MapRanges.LoadedObjectScan.Collect` | loader/src/injector/clean.cpp:414-436 | the table holds the first 64 of all pieces, in order |
| `MapRanges.HeldMeans` | loader/src/injector/clean.cpp:377-380 | an address keeps its protection exactly if it has none or a range over it was held; up to 64 ranges none is dropped |
| `MapRanges.OneTooMany` | loader/src/injector/clean.cpp:377-380 | of 65 separate ranges the last loses its addresses |
| `MapRanges.SortKeeps` | loader/src/injector/clean.cpp:441-443 | sorting puts the same ranges in order |
| `MapRanges.SortedTold` | loader/src/injector/clean.cpp:441-443 | sorted means by start, and by end where starts are equal |
| `MapRanges.SortInPlace` | loader/src/injector/clean.cpp:441-443 | the array holds its ranges sorted by start, then end |
| `MapRanges.NormalizeLoadedRanges` | loader/src/injector/clean.cpp:440-459 | the array's first ranges are the sorted ones, clipped and joined, in place |
| `MapRanges.CompactMeans` | loader/src/injector/clean.cpp:444-458 | of any sorted ranges, every address keeps the protection of the first range over it; the result is in order, disjoint, none empty, none to be joined |
| `MapRanges.NormalizedCovers` | loader/src/injector/clean.cpp:440-459 | the result is normal and covers exactly the addresses the given ranges cover |

## Left out

- Weak memory ordering of the flag cache: steps are sequentially consistent, the fences are taken as given.
- Queries of the flag cache for uid 0xFFFFFFFF, which marks an empty slot.
- Whether flags cached after a flush reflect the new configuration: they are computed before the lock is taken.
- Whether every chunk that is accepted is what an encoder writes: the code is not checked against the range, so a legal chunk here is one that decodes without remainder.
- Single-call and preallocated modes of the LZMA2 decoder, BCJ filters and the .xz container.
- LzDictionary.Dictionary.Resize: allocation always succeeds, so the out-of-memory error of the reset does not occur.
- Sleb128.ReadSleb128: numbers of more than ten bytes shift by 64 or more, which C++ leaves undefined; the model drops those bits.
- PackedRelocs.ForEachPackedReloc: signed overflow of the running addend wraps around, and the running count is unbounded.
- 32-bit ELF files, and packed relocations without explicit addends, whose addends the code passes as 0.
- Relocation.Relocator.Relocate: loading of needed libraries, and the order in which a symbol name is resolved.
- RelocationMeaning.RelrMeansPlain: speaks of tables without failures, since RELR entries are not range-checked.
- Segments.SegmentMapper.MapSegments: page protections, address wrap-around, and segments with more bytes in the file than in memory.
- Locating program headers, the BTI note, RELRO sealing, constructors and destructors of an image.
- The search for the nearest symbol at or before an address, and the parser's cache of its full symbol table: a search of a sorted table, and a second table filled from the same symbols.
- InitMonitor.AppMonitor.RequestRearm: which processes are attached to is a parameter; the attaching itself happens in other processes.
- The parsing of control messages, the status text beyond the description line, and the version code check.
- MapRanges.SortInPlace: a stable sort, where std::sort may order ranges of equal bounds differently; CompactMeans holds for any order.
- MapRanges.LoadedObjectScan.Collect: segments come rounded to pages; which object holds the address, and segments that wrap around, are left out.
- The CFI shadow marker, JNI hooks, solist handling, remote calls, mount namespaces, companions, WebUI and build tooling.
