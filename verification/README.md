# Verified models of five algorithms

This project models the hardest algorithms of the repository in Dafny and proves what they promise:

1. **Vorbis decoding** (`whisper.cpp/examples/stb_vorbis.c`): the assignment of Huffman codewords to lengths, the three
   decoders that use them, the bit reader below them, the Ogg packet reader below that, the lookahead that predicts what
   the packet reader will find, and the integer part of floor 1. The standards are the Vorbis I specification
   (sections 2, 3.2.1 and 7.2.4) and RFC 3533 (sections 5 and 6).
2. **The grammar compiler** (`whisper.cpp/examples/grammar-parser.cpp`): a parser for extended BNF that turns groups and
   `*`, `+`, `?` into generated rules.
3. **The database migration** (`mogofm-db/migrate.js`): the order of the tables, and the two passes that copy rows and
   then resolve references.
4. **The audio ring buffer** (`whisper.cpp/examples/common-sdl.cpp`).
5. **String similarity** (`whisper.cpp/examples/common.cpp`).

Code that changes things in place is modelled in place, by methods on arrays and on fields of classes; each such method
is proved equal to a function of its inputs or of the old state, and the properties are proved of these functions.

## Modules

| files | content |
|---|---|
| `wrappers`, `arithmetic`, `sequences`, `sorting` | an option type, minimum and maximum, sequences without repetition, what the library sort leaves |
| `bits`, `words` | shifts, masks, bit strings, bit reversal, and the machine words that the numbers stand for |
| `codewords` | the codeword assignment as a function, and why it is right |
| `huffman_tables` | the fast table and the sorted table, and what looking something up in them finds |
| `codebook`, `codebook_tables`, `codebook_build` | the methods that fill a codebook in place |
| `bitreader`, `decode`, `decode_fields`, `decode_limits` | the bit reader and the decoders on a packet's bytes, both on one packet, and two codebooks that they do not decode whole |
| `ogg`, `lacing`, `lookahead`, `ogg_outcomes` | the packet reader, lacing, the lookahead, and why a page or packet does not start |
| `vorb`, `packets` | the decoder object, with the methods that read from it; from the pages of a stream to decoded entries |
| `floor1`, `floor1_amplitudes` | line drawing, the floor curve, setup and unwrapping of amplitudes |
| `grammar_syntax`, `grammar_lexer` | lexing, and the expression that a text stands for |
| `grammar_emit`, `grammar_rules` | emitted rules, the symbol table, and what holds of both at each moment |
| `grammar_language`, `grammar_meaning` | languages of expressions and of rules, and why they are the same |
| `grammar_parser`, `grammar_print` | the parser in place, and printing |
| `grammar_form`, `grammar_spelling` | which texts spell a grammar, without parsing, and why the parser reads exactly these |
| `grammar_text`, `grammar_show` | what the texts that parse stand for, characters in UTF-8, and a text for every grammar that has one |
| `table_order` | the order of the tables |
| `migration_store`, `migration_keys`, `migration_passes`, `migration_run`, `migration` | collections, what their keys are, the passes, whole runs, the methods |
| `audio_async` | the ring buffer |
| `similarity` | the two-row table |

## What came out

- `compute_codewords` never rejects lengths that satisfy Kraft's inequality (the comment at
  `whisper.cpp/examples/stb_vorbis.c:1112-1115` leaves this open), and the codewords are the only ones that section 3.2.1
  of the Vorbis I specification allows.
- The decoders read at most four bytes ahead. A codeword that starts in the middle of a byte and reaches into a fifth one
  is not decoded, although the bits are there: with lengths 1 and 26, seven short codewords and then the long one fail.
  `Decode.StreamDecodes` gives the exact condition; codewords of at most 25 bits always meet it.
- The fast table holds 16-bit entries, so that it covers the first 32767 entries only. In a dense codebook of more than
  eight entries that also has a sorted table, which holds the long codewords, an entry behind them with a short codeword is
  in neither table and is never decoded; without a sorted table the linear scan finds it. `Decode.Reached` says exactly
  which entries are decoded, and `DecodeLimits.LastEntryLost` gives a codebook with an entry that is not.
- A decoding that fails forgets all buffered bits, up to 32, and goes on at a byte boundary of the packet.
- An empty character class leaves no element behind and stands for the empty word, not for an empty set of characters.
- Behind an empty rule body or an empty last alternative the parser skips the line end as space. It then takes the name of
  the next rule for a reference and rejects the text at that rule's `::=`. So only the last definition of a grammar can end in
  an empty alternative: `GrammarShow.HasTextIffWritable` says exactly which grammars have a text.
- Apart from that, the parser reads exactly the declarative syntax in `grammar_form`: blanks and comments in all places, line ends
  only inside groups, behind `|` and `::=`, and between rules, and characters in any of their forms.
- Where the lookahead does not ask for more data, more data change nothing, and where it does, enough further bytes settle
  the matter. A page head that the data break off in, behind the capture pattern, counts as one of zeros and starts.
- The lookahead of the push interface is exact on pages with non-empty segment tables, except that it also announces a packet
  on a page that is flagged as continued when the decoder resynchronises.
- An audio callback that is longer than the buffer and whose length is not a multiple of four bytes is read from the
  middle of a sample. The buffer agrees with the samples received again after a clear, or once the callbacks behind it have
  delivered as many samples as are asked for: `AudioAsync.KeptIsLastIffRecent` says exactly for which runs it does.
- The similarity of two empty strings is the quotient of zero and zero.

## Model

| member | source | states |
|---|---|---|
| `Bits.BitReverseInvolution` | whisper.cpp/examples/stb_vorbis.c:1010-1017 | reversing 32 bits twice gives the number back |
| `Bits.BitReverseWordShiftsIn` | whisper.cpp/examples/stb_vorbis.c:1010-1017 | on machine words, the masked swaps move a bit shifted in at the bottom to the top, which fixes them as the reversal of 32 bits |
| `Bits.BitReverseShiftsIn` | whisper.cpp/examples/stb_vorbis.c:1010-1017 | the same recurrence for the reversal on numbers that the other modules use |
| `MachineWords.ReversalsAgree` | whisper.cpp/examples/stb_vorbis.c:1010-1017 | for every word, the number of the word after the masked swaps is the reversal of its number |
| `MachineWords.WordOf` | whisper.cpp/examples/stb_vorbis.c:1010-1017 | every number below 2^32 is the number of a word, so that nothing is said about numbers without one |
| `Codewords.PlaceKeepsPartition` | whisper.cpp/examples/stb_vorbis.c:1105-1129 | placing an entry keeps codewords and free leaves a partition of the code space, with free leaves smaller in value the deeper they are |
| `Codewords.UnusedInLeaf` | whisper.cpp/examples/stb_vorbis.c:1112-1115 | every unused node lies inside a free leaf at or above its depth, which is the fact that the comment there leaves unproved |
| `Codewords.DeepestIsLowest` | whisper.cpp/examples/stb_vorbis.c:1109-1119 | the deepest free leaf at or above the entry's depth starts with the lowest unused codeword of its length |
| `Codewords.AssignKeepsPartition` | whisper.cpp/examples/stb_vorbis.c:1086-1130 | the partition holds after any number of entries of any list of lengths |
| `Codewords.AssignIffKraft` | whisper.cpp/examples/stb_vorbis.c:1105-1129 | all entries get codewords exactly when the lengths satisfy Kraft's inequality |
| `Codewords.AssignIsVorbis` | whisper.cpp/examples/stb_vorbis.c:1086-1130 | each entry gets the lowest valued unused codeword of its length, as section 3.2.1 of the Vorbis I specification asks |
| `Codewords.VorbisCodesUnique` | whisper.cpp/examples/stb_vorbis.c:1086-1130 | the specification determines the codewords |
| `Codewords.PrefixFree` | whisper.cpp/examples/stb_vorbis.c:1086-1130 | no codeword is a prefix of another |
| `HuffmanTables.PrefixIsInterval` | whisper.cpp/examples/stb_vorbis.c:1668-1675 | buffered bits begin with a codeword exactly when their reversal lies in its interval, so that comparing reversed words finds prefixes |
| `HuffmanTables.BeginsUnique` | whisper.cpp/examples/stb_vorbis.c:1656-1713 | buffered bits begin with at most one codeword |
| `HuffmanTables.FastTableEntry` | whisper.cpp/examples/stb_vorbis.c:1134-1154 | a slot of the fast table names an entry whose short codeword begins the index, and -1 only if there is none |
| `HuffmanTables.SearchFinds` | whisper.cpp/examples/stb_vorbis.c:1671-1680 | the halving search ends at the last table entry that is not above the code |
| `HuffmanTables.SearchDecodes` | whisper.cpp/examples/stb_vorbis.c:1668-1684 | searching for bits that begin with an included codeword finds its entry |
| `Codebooks.Codebook.AddEntry` | whisper.cpp/examples/stb_vorbis.c:1075-1084 | stores the codeword at the symbol, or the codeword, its length and the symbol at the count in a sparse codebook |
| `Codebooks.FindLeaf` | whisper.cpp/examples/stb_vorbis.c:1109-1117 | finds the deepest filled slot at or above the depth, 0 if there is none |
| `Codebooks.CutLeaf` | whisper.cpp/examples/stb_vorbis.c:1118-1127 | takes the leaf and leaves exactly the right siblings below it |
| `Codebooks.PlaceEntry` | whisper.cpp/examples/stb_vorbis.c:1105-1128 | one turn of the loop: the entry's codeword is stored and the leaves are cut |
| `Codebooks.ComputeCodewords` | whisper.cpp/examples/stb_vorbis.c:1086-1130 | succeeds exactly under Kraft's inequality, and then the tables hold the bit-reversed codewords of the assignment |
| `CodebookTables.AccelerateHuffman` | whisper.cpp/examples/stb_vorbis.c:1134-1154 | leaves the fast table of the codebook's words, capped at 32767 entries |
| `CodebookTables.SortSorts` | whisper.cpp/examples/stb_vorbis.c:1197 | the order that `qsort` leaves is sorted and a permutation |
| `CodebookTables.BinarySearch` | whisper.cpp/examples/stb_vorbis.c:1211-1221 | the search loop computes the search function on the first `count` words |
| `CodebookTables.SearchExact` | whisper.cpp/examples/stb_vorbis.c:1211-1223 | searching for a word of the table finds it |
| `CodebookTables.ComputeSortedHuffman` | whisper.cpp/examples/stb_vorbis.c:1179-1230 | leaves the included codewords in increasing order with the entry of each beside it |
| `CodebookBuild.BuildCodebook` | whisper.cpp/examples/stb_vorbis.c:3772-3845 | fails exactly when Kraft's inequality does, and otherwise leaves finished tables of the assignment's codewords, dense if at least a quarter of the entries is coded or if the stream says so |
| `BitReader.GetShort` | whisper.cpp/examples/stb_vorbis.c:1611-1627 | a read of at most 24 bits returns the next bits of the packet, least significant first, and consumes them |
| `BitReader.GetLong` | whisper.cpp/examples/stb_vorbis.c:1605-1610 | the split of longer reads returns the same field as one read would |
| `BitReader.GetBitsReadsField` | whisper.cpp/examples/stb_vorbis.c:1599-1628 | any read of at most 32 bits that the packet can satisfy returns the next field and keeps the accumulator below 2 to the number of buffered bits |
| `BitReader.ReadsAreFields` | whisper.cpp/examples/stb_vorbis.c:1599-1628 | any sequence of reads returns the successive fields of the packet |
| `BitReader.PastTheEnd` | whisper.cpp/examples/stb_vorbis.c:1603 | after a read past the end all reads return 0 |
| `BitReader.ReadMeetsEnd` | whisper.cpp/examples/stb_vorbis.c:1599-1628 | the read that meets the end returns 0, or its first 24 bits if it asks for more than 24 and they are there |
| `Decode.PrepSame` | whisper.cpp/examples/stb_vorbis.c:1634-1647 | preparing loses no bit and buffers more than 24 bits or the rest of the packet |
| `Decode.PrepWindow` | whisper.cpp/examples/stb_vorbis.c:1634-1647 | preparing at bit `p` of the packet offers the bits up to the fourth byte boundary |
| `Decode.FastLookup` | whisper.cpp/examples/stb_vorbis.c:1733-1748 | the fast table names the entry whose codeword the bits begin with, or -1 if its codeword is long, its slot is beyond the cap or the codebook is sparse |
| `Decode.BinaryFinds` | whisper.cpp/examples/stb_vorbis.c:1666-1693 | the binary search finds every entry that the sorted table includes |
| `Decode.ScanFinds` | whisper.cpp/examples/stb_vorbis.c:1695-1708 | the linear scan stops at the entry whose codeword the bits begin with |
| `Decode.RawFinds` | whisper.cpp/examples/stb_vorbis.c:1656-1713 | the slower decoder returns that entry and consumes its length |
| `Decode.DecodesBuffered` | whisper.cpp/examples/stb_vorbis.c:1717-1756 | if the packet goes on with the codeword of a reached entry and it can be buffered, the decoder returns the entry and consumes exactly its bits |
| `Decode.OnlyBuffered` | whisper.cpp/examples/stb_vorbis.c:1717-1756 | an entry is returned only if its codeword was buffered whole |
| `Decode.FailedSkips` | whisper.cpp/examples/stb_vorbis.c:1656-1731 | a decoding that fails leaves no bit buffered: it skips at most 32 bits and ends on a byte boundary of the packet |
| `Decode.DecodesWithinWord` | whisper.cpp/examples/stb_vorbis.c:1634-1756 | a codeword at bit `p` is decoded exactly when it ends within four bytes of the byte in which it starts |
| `Decode.StreamDecodes` | whisper.cpp/examples/stb_vorbis.c:1656-1756 | a concatenation of codewords decodes back to its symbols exactly when the tables reach each entry and each codeword ends within its four bytes |
| `DecodeFields.ReadRoom` | whisper.cpp/examples/stb_vorbis.c:1599-1628 | a read never leaves 32 bits in the accumulator, so that the next one never shifts by the width of the word |
| `DecodeFields.PacketReads` | whisper.cpp/examples/stb_vorbis.c:1599-1756 | a packet of fields and codewords, of any codebooks and in any order, is read back exactly when each entry is reached and each codeword ends within four bytes of the byte in which it starts |
| `Decode.ShortFits` | whisper.cpp/examples/stb_vorbis.c:1656-1756 | codewords of at most 25 bits always do |
| `Decode.LongCodewordLost` | whisper.cpp/examples/stb_vorbis.c:1634-1647 | a stream that is lost: lengths 1 and 26, seven short codewords and one long one |
| `DecodeLimits.LoseLongCodeword` | whisper.cpp/examples/stb_vorbis.c:1634-1756 | builds the codebook of lengths 1 and 26 and gives the five bytes that hold those eight codewords and are not decoded to them |
| `Decode.UnreachedLost` | whisper.cpp/examples/stb_vorbis.c:1138-1146 | an entry beyond the cap of the fast table with no other table to find it is never returned |
| `DecodeLimits.LastEntryLost` | whisper.cpp/examples/stb_vorbis.c:1138-1146 | there is such an entry: behind 32767 codewords of 31 bits, one of a single bit is coded and never decoded |
| `DecodeLimits.BuildManyLong` | whisper.cpp/examples/stb_vorbis.c:3772-3845 | the codebook of these lengths is built, dense and with finished tables |
| `Decode.NothingLeft` | whisper.cpp/examples/stb_vorbis.c:1656-1756 | after a read past the end of the packet, the decoder returns -1 and clears the mark of that read |
| `Decode.ReadyUsable` | whisper.cpp/examples/stb_vorbis.c:3772-3845 | the tables that building leaves meet what the decoders rely on, for sparse codebooks without coded entries too |
| `Lacing.SegmentStep` | whisper.cpp/examples/stb_vorbis.c:1539-1573 | reading one segment delivers its bytes and ends the packet exactly if its lacing value is below 255 |
| `Lacing.DrainPacket` | whisper.cpp/examples/stb_vorbis.c:1563-1573 | reading to the end of a packet delivers exactly its bytes, over any number of pages |
| `Lacing.ReadsLaced` | whisper.cpp/examples/stb_vorbis.c:1503-1573 | from any packet boundary, and for any number of packets, reading undoes lacing |
| `Lacing.DelacingInvertsLacing` | whisper.cpp/examples/stb_vorbis.c:1431-1573 | however packets are split over pages with non-empty segment tables and correct continuation flags, reading the stream returns exactly the packets and then finds the end of the data |
| `Lookahead.DrainOnPage` | whisper.cpp/examples/stb_vorbis.c:3530-3542 | reading along the current page does what the walk along its segment table predicts |
| `Lookahead.DrainOverPages` | whisper.cpp/examples/stb_vorbis.c:3544-3575 | reading over the next pages does what the walk over them predicts |
| `Lookahead.LookaheadSound` | whisper.cpp/examples/stb_vorbis.c:3519-3577 | when a whole packet is announced, starting and reading it never meets the end of the data and ends with the packet |
| `Lookahead.LookaheadExact` | whisper.cpp/examples/stb_vorbis.c:3519-3577 | on pages with non-empty segment tables, a packet that starts is announced as whole exactly if reading it ends with the packet, and not with the data or on a wrong page; without resynchronisation nothing else is announced |
| `OggOutcomes.PageOutcome` | whisper.cpp/examples/stb_vorbis.c:1431-1501 | a page starts exactly if, as far as the data reach, its bytes are the capture pattern, the version 0 and a segment table inside the data; otherwise the error names the first of these that is wrong; where the data hold the head, the flags and the table are those of its bytes |
| `OggOutcomes.PacketOutcome` | whisper.cpp/examples/stb_vorbis.c:1503-1516 | a packet starts exactly with a page whose lowest flag bit is 0 |
| `OggOutcomes.MaybeOutcome` | whisper.cpp/examples/stb_vorbis.c:1518-1537 | the silent variant succeeds and fails as the other does, with the same state and error, but at the end of the data it fails without an error |
| `OggOutcomes.DrainOutcome` | whisper.cpp/examples/stb_vorbis.c:1539-1595 | reading a packet to its end stops behind its last segment, or with an error on a page that does not continue it |
| `OggOutcomes.LookaheadStable` | whisper.cpp/examples/stb_vorbis.c:3519-3577 | a finding other than the need for more data stays the same whatever data are added |
| `OggOutcomes.LookaheadSettles` | whisper.cpp/examples/stb_vorbis.c:3519-3577 | where more data are needed, there are data that settle the matter |
| `Vorb.Get8` | whisper.cpp/examples/stb_vorbis.c:1337-1351 | a byte and a moved cursor, or 0 and `eof` |
| `Vorb.CapturePattern` | whisper.cpp/examples/stb_vorbis.c:1431-1438 | reads at most four bytes and says whether they are the capture pattern |
| `Vorb.StartPageNoCapturePattern` | whisper.cpp/examples/stb_vorbis.c:1444-1495 | the header of a page: version, flags, skipped fields, segment table, the errors and the new segment position |
| `Vorb.StartPage` | whisper.cpp/examples/stb_vorbis.c:1497-1501 | the capture pattern and the header |
| `Vorb.StartPacket` | whisper.cpp/examples/stb_vorbis.c:1503-1516 | starts a page if needed, fails on a continued page, and empties the bit buffer |
| `Vorb.MaybeStartPacket` | whisper.cpp/examples/stb_vorbis.c:1518-1537 | the same, but it fails without an error at the end of the data; `OggOutcomes.MaybeOutcome` compares the two |
| `Vorb.NextSegment` | whisper.cpp/examples/stb_vorbis.c:1539-1558 | the length of the next segment, on the next page if this one is used up |
| `Vorb.Get8PacketRaw` | whisper.cpp/examples/stb_vorbis.c:1563-1573 | the next byte of the packet or its end |
| `Vorb.FlushPacket` | whisper.cpp/examples/stb_vorbis.c:1592-1595 | leaves the state behind the packet |
| `Vorb.Fetch` | whisper.cpp/examples/stb_vorbis.c:1563-1573 | fetching a byte delivers the first byte of what is left of the packet, and the end exactly when nothing is left |
| `Vorb.GetBits` | whisper.cpp/examples/stb_vorbis.c:1599-1628 | on the decoder object, a read does what the bit reader does on the rest of the packet |
| `Vorb.PrepHuffman` | whisper.cpp/examples/stb_vorbis.c:1634-1647 | on the decoder object, the accumulator becomes what it becomes on the rest of the packet, for every stream and also after a read past the end; the bytes left are those that preparing leaves, or those behind the head of the page on which the packet broke off |
| `Vorb.CodebookDecodeScalarRaw` | whisper.cpp/examples/stb_vorbis.c:1656-1713 | on the decoder object and the tables in place, the slower decoder returns what its function returns, for every stream |
| `Vorb.DecodeRaw` | whisper.cpp/examples/stb_vorbis.c:1717-1748 | the fast table first, then the slower decoder, on the bits that preparing leaves; for every stream this gives the slot and the accumulator, and where the packet does not break off on a wrong page within the next 24 bits, it is the function on the rest of the packet |
| `Vorb.DecodeEntry` | whisper.cpp/examples/stb_vorbis.c:1754-1756 | the same, with the slot of a sparse codebook turned into its entry |
| `Packets.PacketDecodes` | whisper.cpp/examples/stb_vorbis.c:1503-1756 | the entries at the head of a packet that was just started are decoded exactly when each is reached and each codeword ends within its four bytes |
| `Packets.StreamOfPackets` | whisper.cpp/examples/stb_vorbis.c:1431-1756 | however packets are split over pages, after any number of them the next one starts, its bytes arrive, and its entries are decoded exactly under that condition |
| `Packets.StreamOfFields` | whisper.cpp/examples/stb_vorbis.c:1431-1756 | the same for packets of fields and entries of any codebooks, in any order |
| `Packets.DecodeEntries` | whisper.cpp/examples/stb_vorbis.c:1717-1756 | on the decoder object, decoding again and again returns the run of entries of the rest of the packet, if it does not break off on a wrong page |
| `Packets.DecodePacket` | whisper.cpp/examples/stb_vorbis.c:1503-1756 | on the decoder object, starting the next packet succeeds and decoding returns its entries exactly under that condition |
| `Vorb.IsWholePacketPresent` | whisper.cpp/examples/stb_vorbis.c:3519-3577 | the two loops announce a packet, or set the error, as the lookahead function says |
| `Floor1.PredictBetween` | whisper.cpp/examples/stb_vorbis.c:1935-1943 | a prediction lies between the values at the ends |
| `Floor1.PredictRounds` | whisper.cpp/examples/stb_vorbis.c:1935-1943 | it is the exact point of the line, rounded toward the value at the start |
| `Floor1.LineStep` | whisper.cpp/examples/stb_vorbis.c:2071-2079 | one step of the error accumulator keeps the running value the quotient of the division formula |
| `Floor1.LinePoint` | whisper.cpp/examples/stb_vorbis.c:1935-1943 | the running value is the predicted point, for both signs of the slope |
| `Floor1.LineOpIs` | whisper.cpp/examples/stb_vorbis.c:2034-2081 | a sample is multiplied by the table entry of its value modulo 256 |
| `Floor1.DrawLine` | whisper.cpp/examples/stb_vorbis.c:2034-2081 | scales exactly the samples of the line, each by the table value of its predicted point, whatever the values at the ends |
| `Floor1.CurveExtends` | whisper.cpp/examples/stb_vorbis.c:3082-3099 | a point added at the end changes the curve only behind the last point before it |
| `Floor1.CurveTail` | whisper.cpp/examples/stb_vorbis.c:3100-3105 | behind the last point the curve is constant |
| `Floor1.CurveBetween` | whisper.cpp/examples/stb_vorbis.c:3082-3099 | between two of its points the curve is the predicted line from one to the next |
| `Floor1.UsedMean` | whisper.cpp/examples/stb_vorbis.c:3078-3099 | the points of the curve are the first one and exactly those whose final amplitude is not negative, each with its amplitude times the multiplier |
| `Floor1.CurveThroughUsed` | whisper.cpp/examples/stb_vorbis.c:3078-3099 | the curve passes through every used point |
| `Floor1.DoFloor` | whisper.cpp/examples/stb_vorbis.c:3072-3108 | every sample below half the block size is scaled exactly once, by the value of the curve through the used points, for all amplitudes with which the last table index is inside the table |
| `Floor1Amplitudes.Neighbors` | whisper.cpp/examples/stb_vorbis.c:1303-1312 | the positions of the greatest earlier X below and of the least earlier X above |
| `Floor1Amplitudes.NeighborsBracket` | whisper.cpp/examples/stb_vorbis.c:3978-4005 | with distinct X values the neighbors of every point bracket it, so that a prediction never divides by zero |
| `Floor1Amplitudes.OrderSorts` | whisper.cpp/examples/stb_vorbis.c:3988-3997 | sorting lists the ids by increasing X, each once |
| `Floor1Amplitudes.DuplicatesAdjacent` | whisper.cpp/examples/stb_vorbis.c:3993-3995 | comparing sorted neighbors finds every duplicate |
| `Floor1Amplitudes.Precompute` | whisper.cpp/examples/stb_vorbis.c:3987-4004 | fails exactly on duplicate X values, and otherwise leaves the order and the neighbors that decoding relies on |
| `Floor1Amplitudes.UnwrapPermutes` | whisper.cpp/examples/stb_vorbis.c:3246-3268 | for a fixed prediction the amplitude map stays inside the range and is undone by its inverse |
| `Floor1Amplitudes.WrapPermutes` | whisper.cpp/examples/stb_vorbis.c:3246-3268 | and the other way round, so that it permutes the range |
| `Floor1Amplitudes.NearestFirst` | whisper.cpp/examples/stb_vorbis.c:3246-3268 | greater coded values give amplitudes farther from the prediction, the lower one of two at the same distance first, which together with the permutation fixes the map |
| `Floor1Amplitudes.UnwrapStaysOutside` | whisper.cpp/examples/stb_vorbis.c:3246-3268 | an amplitude lies inside the range exactly when its coded value does |
| `Floor1Amplitudes.AmpsInRange` | whisper.cpp/examples/stb_vorbis.c:3239-3269 | all final amplitudes of a floor lie inside the range |
| `Floor1Amplitudes.AmplitudeIs` | whisper.cpp/examples/stb_vorbis.c:3239-3269 | each amplitude comes from its coded value and the point of the line between the amplitudes at the closest earlier X values on both sides |
| `Floor1Amplitudes.UnwrappingIsBijection` | whisper.cpp/examples/stb_vorbis.c:3239-3269 | unwrapping all amplitudes is a bijection on the lists over the range |
| `Floor1Amplitudes.FlagsMean` | whisper.cpp/examples/stb_vorbis.c:3238-3269 | a point is used exactly when it is an end point, was coded, or is a neighbor of a later coded point |
| `Floor1Amplitudes.RangeOf` | whisper.cpp/examples/stb_vorbis.c:3208-3209 | the range is the least one that times the multiplier reaches 256 |
| `Floor1Amplitudes.UnwrapAmplitudes` | whisper.cpp/examples/stb_vorbis.c:3238-3280 | leaves in place the amplitudes, truncated to 16 bits, at the used points and -1 at the others, negative coded values included |
| `Floor1Amplitudes.UnwrappedIsDrawable` | whisper.cpp/examples/stb_vorbis.c:3208-3280 | whatever values the codebooks return, the end point, whose value is read directly, keeps the one table index that is not masked below 256; coded values in range keep all of them there; the first two points are used with their coded values |
| `GrammarSyntax.NameEnd` | whisper.cpp/examples/grammar-parser.cpp:91-100 | a name is the longest run of word characters |
| `GrammarLexer.ParseSpace` | whisper.cpp/examples/grammar-parser.cpp:76-89 | the loop skips what the function skips |
| `GrammarText.SpaceIsBlank` | whisper.cpp/examples/grammar-parser.cpp:76-89 | what is skipped is blanks and comments, and skipping stops at the first byte that is neither |
| `GrammarSpelling.SpaceReads` | whisper.cpp/examples/grammar-parser.cpp:76-89 | exactly the blanks and comments are skipped, line ends only where they count as blanks |
| `GrammarLexer.ParseHex` | whisper.cpp/examples/grammar-parser.cpp:53-74 | exactly `size` hex digits, or an error |
| `GrammarSpelling.HexReads` | whisper.cpp/examples/grammar-parser.cpp:53-74 | digits are read as a number exactly if they are its hexadecimal digits, in either case |
| `GrammarLexer.DecodeCharacter` | whisper.cpp/examples/grammar-parser.cpp:12-25 | the loop decodes what the function decodes, and never passes the terminator |
| `GrammarLexer.DecodeInvertsUtf8` | whisper.cpp/examples/grammar-parser.cpp:12-25 | decoding inverts the UTF-8 encoding of every code point (section 3 of RFC 3629) |
| `GrammarLexer.CharFitsElement` | whisper.cpp/examples/grammar-parser.cpp:102-123 | every character value fits the 32 bits of an element |
| `GrammarLexer.ParseChar` | whisper.cpp/examples/grammar-parser.cpp:102-123 | the method reads what the function reads, errors included; `GrammarSpelling.CharReads` and `GrammarShow.Utf8Reads` say what that is |
| `GrammarSpelling.CharReads` | whisper.cpp/examples/grammar-parser.cpp:102-123 | a character is read exactly where one is written: as an escape with the digits of its number, as one of the seven escapes of one letter, or as plain bytes |
| `GrammarShow.Utf8Reads` | whisper.cpp/examples/grammar-parser.cpp:102-123 | every code point but the backslash, written in UTF-8, is read as itself, between any texts |
| `GrammarShow.LiteralStands` | whisper.cpp/examples/grammar-parser.cpp:139-148 | code points without quote and backslash, in UTF-8 between quotes, parse as the literal of exactly these code points |
| `GrammarShow.RangeStands` | whisper.cpp/examples/grammar-parser.cpp:149-173 | two code points in UTF-8 with a dash between them are read as the range of exactly these |
| `GrammarEmit.NumberOfDigits` | whisper.cpp/examples/grammar-parser.cpp:35 | the decimal digits of an id determine it |
| `GrammarEmit.FirstDigit` | whisper.cpp/examples/grammar-parser.cpp:35 | and have no leading zero |
| `GrammarEmit.GeneratedName` | whisper.cpp/examples/grammar-parser.cpp:33-37 | for instance `root_12` |
| `GrammarEmit.GeneratedInjective` | whisper.cpp/examples/grammar-parser.cpp:33-37 | generated names differ when their ids do |
| `GrammarEmit.GeneratedIsNoUserName` | whisper.cpp/examples/grammar-parser.cpp:33-51 | a generated name is never a name that the parser reads |
| `GrammarRules.GeneratedIsFresh` | whisper.cpp/examples/grammar-parser.cpp:33-37 | a generated name overwrites nothing |
| `GrammarRules.GenerateKeepsSymbols` | whisper.cpp/examples/grammar-parser.cpp:33-37 | generating a symbol keeps the table one-to-one onto 0..size-1 |
| `GrammarRules.InternKeepsSymbols` | whisper.cpp/examples/grammar-parser.cpp:27-31 | so does a new user name |
| `GrammarRules.EmitItemKeeps` | whisper.cpp/examples/grammar-parser.cpp:132-230 | emitting an item, at any moment of a parse and inside any open groups, keeps the symbol table a bijection and every finished rule the one that its id stands for |
| `GrammarRules.EmitAltsKeeps` | whisper.cpp/examples/grammar-parser.cpp:232-248 | the same for alternatives, whose elements stand for them |
| `GrammarRules.CompileKeeps` | whisper.cpp/examples/grammar-parser.cpp:250-286 | the same for whole grammars, in which a later definition replaces an earlier one of its name |
| `GrammarLanguage.JoinDerives` | whisper.cpp/examples/grammar-parser.cpp:132-230 | element sequences put together derive what they derive one after the other |
| `GrammarLanguage.SplitDerives` | whisper.cpp/examples/grammar-parser.cpp:132-230 | and nothing else |
| `GrammarLanguage.RuleAlt` | whisper.cpp/examples/grammar-parser.cpp:232-248 | a rule derives what one of the alternatives between its ALT marks derives |
| `GrammarLanguage.ClassDerivesSet` | whisper.cpp/examples/grammar-parser.cpp:149-173 | the elements of a class derive exactly the characters of its ranges, or all others if it is negated |
| `GrammarLanguage.ClassMeansSet` | whisper.cpp/examples/grammar-parser.cpp:149-173 | they do so exactly when the class is not empty |
| `GrammarMeaning.RepRuleDerives` | whisper.cpp/examples/grammar-parser.cpp:187-223 | the two alternatives of a generated repetition rule |
| `GrammarMeaning.AllSound` | whisper.cpp/examples/grammar-parser.cpp:132-248 | every word that an id derives, by a derivation of any height, is denoted by the expression that the id stands for |
| `GrammarMeaning.ItemComplete` | whisper.cpp/examples/grammar-parser.cpp:132-248 | every word that an expression denotes is derived from its elements |
| `GrammarMeaning.CompilePreservesLanguage` | whisper.cpp/examples/grammar-parser.cpp:132-286 | a name derives from the emitted rules exactly the words that its definition denotes, for all grammars, recursive ones included |
| `GrammarText.TextPreservesLanguage` | whisper.cpp/examples/grammar-parser.cpp:274-286 | the same for every text that parses |
| `GrammarText.ParsedGrammarOk` | whisper.cpp/examples/grammar-parser.cpp:274-286 | a parse that succeeds ends at the terminator and yields a grammar with user names, characters of 32 bits, no repeated empty items, and an empty last alternative in the last definition only |
| `GrammarSpelling.ParsesIffSpells` | whisper.cpp/examples/grammar-parser.cpp:12-286 | a text parses to a grammar exactly if it spells it, by a declarative syntax in which positions between the parts are chosen: any blanks and comments in all places, line ends inside groups, behind bars and definition signs and between rules, and characters in any form |
| `GrammarSpelling.RejectedIffNoSpelling` | whisper.cpp/examples/grammar-parser.cpp:274-286 | a text is rejected exactly if it spells no grammar |
| `GrammarShow.TwoLineGroup` | whisper.cpp/examples/grammar-parser.cpp:180-191 | for instance, a group over two lines is read |
| `GrammarShow.ParseInvertsShow` | whisper.cpp/examples/grammar-parser.cpp:132-286 | every such grammar has a text that parses back to it |
| `GrammarShow.HasTextIffWritable` | whisper.cpp/examples/grammar-parser.cpp:132-286 | a grammar is what some text stands for exactly if it is such a grammar |
| `GrammarShow.EmptyRuleRejected` | whisper.cpp/examples/grammar-parser.cpp:250-272 | a line with an empty rule before another rule is rejected where a line end is expected, whatever comes behind |
| `GrammarShow.EmptyThenOther` | whisper.cpp/examples/grammar-parser.cpp:250-272 | for instance `a ::=`, line end, `b ::= c` |
| `GrammarShow.EmptyRuleAlone` | whisper.cpp/examples/grammar-parser.cpp:250-272 | at the end of the text an empty rule is read |
| `GrammarParser.ParseLiteral` | whisper.cpp/examples/grammar-parser.cpp:140-148 | the elements of a literal |
| `GrammarParser.ParseClass` | whisper.cpp/examples/grammar-parser.cpp:149-173 | the elements of a class, with the alternative type at all ranges but the first |
| `GrammarParser.ParseState.GetSymbolId` | whisper.cpp/examples/grammar-parser.cpp:27-31 | the id of a known name, or the next id for a new one |
| `GrammarParser.ParseState.GenerateSymbolId` | whisper.cpp/examples/grammar-parser.cpp:33-37 | a generated name with the next id |
| `GrammarParser.ParseState.AddRule` | whisper.cpp/examples/grammar-parser.cpp:39-47 | the rule is put at its id; slots in between are empty |
| `GrammarParser.ParseState.ParseGroup` | whisper.cpp/examples/grammar-parser.cpp:180-191 | a group becomes a reference to a generated rule |
| `GrammarParser.ParseState.Repeat` | whisper.cpp/examples/grammar-parser.cpp:192-225 | the last item's elements become a generated rule and are replaced by a reference to it |
| `GrammarParser.ParseState.ParseSequence` | whisper.cpp/examples/grammar-parser.cpp:132-230 | ends on every text, with an error or with the elements and the state of the sequence that the text stands for; `GrammarSpelling.ParsesIffSpells` says which sequence that is, for all blanks and line ends |
| `GrammarParser.ParseState.ParseAlternates` | whisper.cpp/examples/grammar-parser.cpp:232-248 | the same for alternatives, which become the rule of the given id |
| `GrammarParser.ParseState.ParseRule` | whisper.cpp/examples/grammar-parser.cpp:250-272 | the same for a definition |
| `GrammarParser.Parse` | whisper.cpp/examples/grammar-parser.cpp:274-286 | the compiled grammar of the text, or an empty state on an error |
| `GrammarPrint.CompiledRulesWellFormed` | whisper.cpp/examples/grammar-parser.cpp:337-397 | every rule that was added has one END, at its end, what continues a class follows a character, and references are below the number of symbols; the empty slots are those of undefined names |
| `GrammarPrint.PrintRule` | whisper.cpp/examples/grammar-parser.cpp:337-397 | the loop prints, or throws at, what the function says; `GrammarPrint.ReadInvertsPrint` and `GrammarPrint.ThrownAtFirst` say what that is |
| `GrammarPrint.PrintsIffWellFormed` | whisper.cpp/examples/grammar-parser.cpp:337-397 | printing a rule throws nothing exactly when the rule is well formed |
| `GrammarPrint.ThrownAtFirst` | whisper.cpp/examples/grammar-parser.cpp:337-397 | what is thrown names the kind of the first element that is not in order |
| `GrammarPrint.ReadInvertsPrint` | whisper.cpp/examples/grammar-parser.cpp:337-397 | a printed line read back gives the id, the rule and what stands behind the line, where the reader accepts a class only if it is opened with a character and closed by one bracket before anything else |
| `GrammarPrint.SymbolNames` | whisper.cpp/examples/grammar-parser.cpp:401-404 | the loop inverts the symbol table |
| `GrammarPrint.PrintGrammar` | whisper.cpp/examples/grammar-parser.cpp:399-414 | prints all rules exactly when all are well formed |
| `GrammarPrint.ReadInvertsAll` | whisper.cpp/examples/grammar-parser.cpp:399-414 | the printed lines of a grammar read back give all its rules |
| `GrammarPrint.ParsedPrintsIffDefined` | whisper.cpp/examples/grammar-parser.cpp:399-414 | a parsed grammar prints exactly when every name that has a slot in the rules is defined |
| `TableOrder.BuildGraph` | mogofm-db/migrate.js:680-698 | lists for each table its distinct referrers among the tables, without itself, and counts for each table what it references |
| `TableOrder.StuckIsCyclic` | mogofm-db/migrate.js:700-716 | where every table of a set references another of it, there is a cycle |
| `TableOrder.OrderedIsAcyclic` | mogofm-db/migrate.js:700-716 | an order that respects all references rules cycles out |
| `TableOrder.LeftIsCyclic` | mogofm-db/migrate.js:713-716 | tables left over when the queue is empty mean a cycle |
| `TableOrder.ReleaseAll` | mogofm-db/migrate.js:703-711 | after the children of a table, the counts are those of the missing references, and the queue and the result hold exactly the tables without any |
| `TableOrder.TopologicalSortTables` | mogofm-db/migrate.js:680-719 | a permutation of the tables that puts referenced tables first; the configured order is used exactly when the references are circular |
| `MigrationStore.NormalizeTwice` | mogofm-db/migrate.js:605-609 | normalizing a normalized id changes nothing; `MigrationKeys.NormalizeIs` says what the normal form is |
| `MigrationKeys.NormalizeIs` | mogofm-db/migrate.js:605-609 | the key of a text is the text between the outer white space with small letters for capital ones; null and texts of white space have none |
| `MigrationKeys.SameKeyIff` | mogofm-db/migrate.js:605-609 | two texts get the same key exactly if they agree up to outer white space and case |
| `MigrationStore.AllKeysKeyed` | mogofm-db/migrate.js:1170-1198 | with unique keys, the map from keys to ids finds exactly the record of each key |
| `MigrationStore.LastPage` | mogofm-db/migrate.js:1176-1196 | the page count stops the loop exactly when the listing is used up |
| `MigrationPasses.PassRowsClosed` | mogofm-db/migrate.js:926-989 | after pass 1 there is one record for every key of the source and of the collection, with the fields of the last row of its key; records keep their ids and places, and others keep everything |
| `MigrationPasses.Pass2Column` | mogofm-db/migrate.js:1107-1145 | after pass 2 a reference points to the record that it names, or nothing about it changed |
| `MigrationPasses.Pass2Twice` | mogofm-db/migrate.js:1062-1168 | a second pass 2 finds nothing to do |
| `MigrationPasses.NothingCreated` | mogofm-db/migrate.js:965-972 | when all keys are known, pass 1 creates nothing |
| `MigrationRun.Pass1AllDone` | mogofm-db/migrate.js:192-200 | pass 1 over all tables leaves each collection in its closed form |
| `MigrationRun.Pass2AllDone` | mogofm-db/migrate.js:202-210 | pass 2 over all tables uses the same maps for every table, whatever their order |
| `MigrationRun.MigrationKeepsReferences` | mogofm-db/migrate.js:192-210 | after a run, each reference of the last row of a source key is a link to the record of the target with the old id that it names, or, if there is none, is still in the temporary field |
| `MigrationRun.MigrationKeepsRows` | mogofm-db/migrate.js:192-210 | after a run, every source key of every table has exactly one record, which holds all columns of the last row with that key: converted values and references |
| `MigrationRun.MigrationIsIdempotent` | mogofm-db/migrate.js:192-210 | a second run leaves every collection as it is |
| `Migration.BuildPass1RecordPayload` | mogofm-db/migrate.js:1006-1027 | the loop fills the payload of all columns |
| `Migration.PocketBase.BuildOldIdToPocketIdMap` | mogofm-db/migrate.js:1170-1198 | the loop over all pages builds the map of the whole collection |
| `Migration.PocketBase.MigrateRow` | mogofm-db/migrate.js:946-974 | a row without a key is skipped, a known key is updated, a new one created |
| `Migration.PocketBase.MigrateTablePass1` | mogofm-db/migrate.js:926-989 | for every number of rows and every batch size, the batches process all rows in order |
| `Migration.PocketBase.BuildPatch` | mogofm-db/migrate.js:1107-1145 | the patch of a record, with maps that are built when first needed |
| `Migration.PocketBase.ResolveRelationsPass2` | mogofm-db/migrate.js:1062-1168 | all records of all pages are patched once, although the maps are built while records change |
| `Migration.PocketBase.Run` | mogofm-db/migrate.js:192-210 | both passes over all tables in the given order |
| `AudioAsync.StoredIsLastIffAligned` | whisper.cpp/examples/common-sdl.cpp:144-150 | for a given length, a callback stores the last samples that it delivers, whatever the bytes, exactly when its length is a multiple of four bytes or it is not longer than the buffer |
| `AudioAsync.KeptIsLast` | whisper.cpp/examples/common-sdl.cpp:139-168 | after any run, the last samples kept are the last samples received since the last clear, for as many samples as come from aligned callbacks |
| `AudioAsync.KeptIsLastIffRecent` | whisper.cpp/examples/common-sdl.cpp:139-168 | for a run of given clears and callback lengths, that holds whatever the bytes are exactly if the callbacks that delivered those samples are aligned |
| `AudioAsync.UnalignedIsForgotten` | whisper.cpp/examples/common-sdl.cpp:139-168 | an overlong callback that is not aligned stops to matter exactly when aligned callbacks behind it have delivered a buffer of samples |
| `AudioAsync.WroteHolds` | whisper.cpp/examples/common-sdl.cpp:157-166 | storing samples around the end keeps the slots before the position in order |
| `AudioAsync.ReadLast` | whisper.cpp/examples/common-sdl.cpp:198-209 | copying from the start slot, around the end, yields the last samples, oldest first |
| `AudioAsync.Audio.HandleCallback` | whisper.cpp/examples/common-sdl.cpp:139-168 | the buffer keeps the end of its run with the callback added; nothing happens while it is not running |
| `AudioAsync.Audio.ClearBuffer` | whisper.cpp/examples/common-sdl.cpp:117-136 | the run starts anew |
| `AudioAsync.SampleCount` | whisper.cpp/examples/common-sdl.cpp:190 | the whole samples in the given milliseconds: not more than rate times time, and less than one sample short of it |
| `AudioAsync.DeliveredBytes` | whisper.cpp/examples/common-sdl.cpp:144 | the samples of a callback are its bytes in their order, but for up to three at the end |
| `AudioAsync.Audio.constructor` | whisper.cpp/examples/common-sdl.cpp:74-76 | the buffer holds the whole samples of its length in milliseconds |
| `AudioAsync.Audio.Get` | whisper.cpp/examples/common-sdl.cpp:170-211 | the last samples kept, as many as were asked for and are there; all of them for the whole length or without a length |
| `AudioAsync.Audio.GetAgreesWithHistory` | whisper.cpp/examples/common-sdl.cpp:139-211 | where the callbacks that delivered the samples asked for are aligned, these are the last samples of the whole history, up to the capacity |
| `Similarity.NextRow` | whisper.cpp/examples/common.cpp:660-665 | one row of the table from the row before it; row 0 comes out as it was |
| `Similarity.Similar` | whisper.cpp/examples/common.cpp:648-670 | one minus the edit distance over the longer length; nothing for two empty strings |
| `Similarity.DistanceIsMinimum` | whisper.cpp/examples/common.cpp:648-670 | the final cell is the minimum cost over all scripts of insertions, deletions and substitutions |
| `Similarity.Symmetric` | whisper.cpp/examples/common.cpp:648-670 | the distance is symmetric |
| `Similarity.ZeroIffEqual` | whisper.cpp/examples/common.cpp:648-670 | it is zero exactly for equal strings |
| `Similarity.AtMostLonger` | whisper.cpp/examples/common.cpp:648-670 | it is at most the longer length |
| `Similarity.Triangle` | whisper.cpp/examples/common.cpp:648-670 | going through a third string is never shorter |
| `Similarity.SimilarityRange` | whisper.cpp/examples/common.cpp:667-669 | the similarity lies between 0 and 1, and is 1 exactly for equal strings |

## Left out

- Lacing.DelacingInvertsLacing: pages with an empty segment table, on which the reader would use the table of the page before.
- Lookahead.LookaheadExact: the same pages, and a decoder whose error is already set.
- Vorb.GetBits: a read of 32 bits with 32 bits buffered, which shifts by the width of the word in C.
- Vorb.PrepHuffman: a read past the end of a packet that broke off on a page with a wrong continuation flag, after which C shifts by a negative number.
- Vorb.DecodeRaw: where the stream stands when such a packet breaks off and the second fetch already reads from the next page.
- Vorb.DecodeEntry: the same; and sparse codebooks without any coded entry, whose sorted values are a null pointer in C.
- Vorb.StartPageNoCapturePattern: granule positions and the last known location, which only seeking uses.
- CodebookTables.QSort: the order in which the library sort proceeds; it is a sort by insertion here, as it is in Floor1Amplitudes.
- CodebookBuild.BuildCodebook: allocation failures, and the lengths themselves, which come from the bit stream.
- Floor1.DoFloor: rounding; samples and table values are real numbers.
- Floor1Amplitudes.Precompute: reading the X values from the bit stream, whose width puts them below the end point.
- GrammarParser.Parse: the messages of errors, which are kinds of errors here; the vector that is passed by reference is an input and an output.
- GrammarParser.ParseState.GetSymbolId: ids beyond 32 bits.
- GrammarPrint.PrintRule: how a character is written, and what was written before an exception.
- MigrationKeys.NormalizeIs: lower case of letters outside ASCII, and how numbers are turned into strings.
- MigrationRun.MigrationKeepsRows: collections in which two records share an old id before the run.
- Migration.PocketBase.MigrateTablePass1: failing calls of both databases, and a source that returns fewer rows than it has.
- Migration.BuildPass1RecordPayload: the conversion of values that are no references, which is a parameter.
- AudioAsync.Audio.constructor: a length of less than one sample, with which C divides by zero.
- AudioAsync.Audio.Get: products of rate and milliseconds beyond 31 bits, and requests without an open device.
- AudioAsync.Audio.HandleCallback: locking; each call is one step, as under the mutex.
- Similarity.Similar: rounding of the quotient.
- Inverse transforms, windows, residues, file access, seeking and push-mode reading of the Vorbis decoder: signal code on floats and heuristics.
- Authentication, schema discovery and collection creation of the migration: network calls without an algorithm of their own.
- The web server, the scripts, the language bindings and the other example programs: they call code that is not part of this model.
