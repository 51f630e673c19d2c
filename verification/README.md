# Verified models of the allocator, channel, HPACK and framing cores

This project models, in Dafny, the hardest code of an annotated subset of the Go runtime and of its
HTTP/2 packages, and proves what that code is for:

- **Page allocator** (`memory_and_heap`): a 512-page chunk is a bitmap of eight words. `summarize`
  and the `find` family work on whole words; they are proved against a bitmap seen as a sequence of
  pages. Packed summaries form a five-level tree that `update` keeps exact. The bit counts they call
  are proved down to their lookup tables.
- **HPACK** (`http2/hpack`, RFC 7541): integers, Huffman coding in both directions, the
  id-indexed header table, the dynamic table and the field representations, up to the lockstep of
  encoder and decoder over whole runs of blocks, limits and split writes.
- **Channels** (`channels_and_select/chan.go`): ring buffer and two linked queues of parked
  goroutines. Each method is one section run under the channel lock; the unlocked fast paths are
  about the sequences of states that such sections leave behind.
- **HTTP/2 framer** (`http2/http2/frame.go`, RFC 7540): writers, parsers and the header block order check.
- **Small allocators** (`memory_and_heap`): the zeroing watermark and the mark bit arenas as state
  machines over every interleaving, the fixed-size allocator over the persistent allocator.

## How it is put together

Code that changes things in place is a class or a method with loops, proved against a function or
predicate over values (`Pages`, `Representation`, `Buffered`, `FrameBytes`); what the source promises
is then proved of those values. Code that is lock-free is a state machine whose steps are single atomic
accesses, and its properties are proved of every schedule of every number of threads.

| file | what it holds |
|---|---|
| `Options.dfy`, `Tables.dfy` | an optional value, and look-up in a table of constants |
| `Runs.dfy`, `Words.dfy`, `BitCounts.dfy`, `PallocSum.dfy`, `PallocBits.dfy`, `FindPages.dfy`, `MergeSums.dfy`, `PageAlloc.dfy` | page allocator |
| `BitStrings.dfy`, `HuffmanCode.dfy`, `HuffmanTable.dfy`, `HuffmanTrie.dfy`, `Huffman.dfy`, `VarInt.dfy`, `HeaderTable.dfy`, `DynamicTable.dfy`, `Hpack.dfy`, `HpackStream.dfy`, `HpackForms.dfy`, `HpackLimits.dfy`, `HpackRuns.dfy`, `HpackCodec.dfy` | HPACK |
| `Channel.dfy` | channels |
| `Frames.dfy`, `FrameForms.dfy`, `FrameOrder.dfy`, `Framer.dfy` | framer |
| `NeedsZero.dfy`, `MarkBits.dfy`, `PersistentAlloc.dfy`, `FixAlloc.dfy` | small allocators |

## Findings

Where the code does not do what one would expect of it, the code is kept and the exact condition is proved:

- An encoded integer is read back exactly up to 2^63 + 2^n - 2; a larger one that the writer can still
  produce is refused as an overflow (`VarInt.RoundTrip`).
- When two size updates are pending, the decoder refuses the second one unless the first one emptied the
  table, because it then no longer counts as the first thing in the block (`Hpack.PendingAccepted`,
  `Hpack.PendingRefused`).
- The Huffman decoder takes the encoding of a text if and only if the padding of its last octet, read
  with zeros after it, leads towards some code (`Huffman.HuffmanDecode`); there are valid tables where it
  leads nowhere (`HuffmanCode.PaddingCanLeadNowhere`). For this repository's table it always leads
  somewhere (`HuffmanTable.TableIsValid`).
- The decoder's dispatch drops the result of the parser for incremental indexing and reports an error
  (`HpackCodec.Decoder.ParseHeaderFieldRepr`); that happens exactly for the fields the encoder adds to
  its table (`Hpack.IndexingShows`, `HpackRuns.SendBack`). `Setup.drops` says whether a decoder does so, and the
  results on streams and runs hold either way.
- `SetMaxDynamicTableSizeLimit` evicts without announcing the limit. From equal tables, whatever they hold, both
  sides agree afterwards if and only if what the decoder keeps fits the smallest limit the encoder
  evicted to (`HpackLimits.AgreesIff`, `HpackLimits.ForcedLimitDisagrees`). It does no harm: the encoder's
  table stays a tail of the decoder's, and every field is still read as it was sent (`HpackRuns.Lockstep`).
- The error of the Huffman decoder is dropped. A value that is no encoding is handed out as the empty string
  (`HpackForms.DroppedError`), and so is a text that is over the limit on strings while its encoding is
  within it; every other text over the limit is refused (`HpackForms.StringOverLimit`).
- How a header block is split into writes does not matter (`HpackStream.AnySplit`), except that with a limit on
  strings a write can be refused for what it would have to keep, though the whole block would be accepted
  (`HpackStream.SplitCanFail`). Nothing this encoder writes is refused so (`HpackRuns.BlockInPieces`).
- A GOAWAY frame does not give its error code back, except when the code equals the last stream identifier
  (`Frames.GoAwayBack`).
- An input that ends right behind the header of a frame with a payload is reported as a clean end, and any other
  frame cut off as an unexpected one (`FrameForms.FrameCutOff`).
- A SETTINGS frame is refused exactly when its first initial window size is too large; later ones are not
  looked at (`Frames.SettingsBack`).
- The frame order check rests on the parsers refusing stream 0 (`FrameOrder.StreamZeroSlipsThrough`).
- A request for mark bits for no elements is granted past the end of a full arena, in a run of one thread
  (`MarkBits.EmptyRequestAtTheEnd`). Over all runs a range starts there if and only if no elements were
  asked for and the arena is full (`MarkBits.StartsAtTheEndIff`).
- The comment in `chansend` asks whether hand-off can reorder messages: it cannot. `Channel.HChan.HandOff`
  and `Channel.HChan.Recv` say what each does to the order, all operations keep it, and
  `Channel.HChan.Fifo` says what it means.
- The comment on the unlocked path of `chansend` says that "open, then not ready" implies one moment that
  was both. Whatever happened in between, that is so if and only if the channel has a buffer, is still
  open, or had no receiver waiting at the first read (`Channel.FastSend`); the other case is an unbuffered
  channel closed on a waiting receiver (`Channel.FastSendMisled`).
- `update` reaches for one summary entry too many if and only if its range ends at the very top of the
  address space (`PageAlloc.RangeFits`).

## Model

| member | source | states |
|---|---|---|
| Words.IncIsPlusOne | memory_and_heap/mpallocbits.go:216 | the bitwise successor is addition of one modulo 2^64, carry chain included |
| Words.OnesAtBottomMeaning | memory_and_heap/mpallocbits.go:216 | the test `x & (x+1) == 0` holds exactly when all ones of x sit at the bottom |
| BitCounts.Len64 | memory_and_heap/stubs.go:84-98 | the three shifts and the byte table give the number of bits x needs, for every 64-bit x |
| BitCounts.LeadingZeros64 | memory_and_heap/stubs.go:169 | for every 64-bit number, the run of zeros that reaches the top of its word |
| Words.WordsAreNumbers | memory_and_heap/mpallocbits.go:161-263 | words and 64-bit numbers correspond one to one |
| BitCounts.TrailingZeros64 | memory_and_heap/stubs.go:148-166 | for every 64-bit number, isolating the lowest bit, multiplying and looking up gives the run of zeros at the bottom of its word; 64 for zero |
| BitCounts.LowestBit | memory_and_heap/stubs.go:164 | `x & -x` is the power of two at the lowest one bit of x |
| BitCounts.DeBruijnFinds | memory_and_heap/stubs.go:138-145 | the top six bits of the constant times 2^i lead to table entry i, for all 64 places |
| PallocBits.Summarize | memory_and_heap/mpallocbits.go:161-263 | for every bitmap: free run from page 0, longest free run anywhere, free run at the top, through the early exit and the shrinking loop alike |
| PallocBits.CountRuns | memory_and_heap/mpallocbits.go:162-196 | the word-wise first pass finds the runs at both ends and the longest run that touches a word boundary |
| PallocBits.RaiseMax | memory_and_heap/mpallocbits.go:207-259 | raises the maximum to the longest free run inside one word, whatever the word |
| PallocBits.ShrinkZeros | memory_and_heap/mpallocbits.go:226-246 | the doubling shift shrinks every run of zeros by exactly the places asked for and loses no longer run |
| PallocBits.ShrunkAway | memory_and_heap/mpallocbits.go:226-246 | once only bottom ones are left after shrinking, no run of zeros was longer |
| PallocBits.Harvest | memory_and_heap/mpallocbits.go:249-258 | what is left of the lowest run is what the maximum grows by, and no run passed over was longer |
| PallocBits.LongestInside | memory_and_heap/mpallocbits.go:198-260 | the word loop with its size-62 exit raises the maximum over all words |
| Runs.SummaryUnique | memory_and_heap/mpallocbits.go:161-263 | a bitmap has only one exact summary, so the results above determine what is returned |
| FindPages.FindBitRange64 | memory_and_heap/mpallocbits.go:489-517 | the least place that begins n ones, or at least 64 exactly when there is none; the doubling loop ends |
| FindPages.Find1 | memory_and_heap/mpallocbits.go:300-315 | the first free page from the start of the word that holds the search index, or none exactly when there is none |
| FindPages.FindSmallN | memory_and_heap/mpallocbits.go:327-381 | first fit for up to 64 pages across word boundaries; the index is the first free page, also when nothing fits, except that a run found inside a word leaves it as it was |
| FindPages.FindLargeN | memory_and_heap/mpallocbits.go:393-453 | first fit for any number of pages, and the first free page as the index |
| FindPages.Find | memory_and_heap/mpallocbits.go:274-294 | the least page from the word of the search index on that begins npages free ones; fails exactly when there is none |
| FindPages.IndexSkipsNothing | memory_and_heap/mpallocbits.go:264-273 | the index returned skips no free page, if the one before did not |
| FindPages.BoundaryHit | memory_and_heap/mpallocbits.go:358-366 | a run carried over a word boundary that is long enough is the first fit |
| FindPages.InteriorHit | memory_and_heap/mpallocbits.go:369-372 | a run found inside a word is the first fit when none crosses into the word |
| FindPages.FindSucceedsUpToMax | memory_and_heap/mpallocbits.go:274-294 | a search from 0 succeeds exactly for requests up to the summary's maximum |
| PallocSums.PackRoundTrip | memory_and_heap/mpagealloc.go:884-926 | packing then unpacking a legal triple is the identity, the saturated 2^21 case included |
| PallocSums.OnlyLegalSurvive | memory_and_heap/mpagealloc.go:884-926 | and no other triple survives it |
| PallocSums.PackLayout | memory_and_heap/mpagealloc.go:884-926 | which bits hold the start, the maximum and the end, and which number says 2^21 for all three |
| PallocSums.ExactIsLegal | memory_and_heap/mpagealloc.go:884-926 | exact summaries of up to 2^21 pages are legal |
| Runs.JoinExact | memory_and_heap/mpagealloc.go:936-971 | joining exact summaries of two neighbours is exact for their concatenation |
| MergeSums.MergeSummaries | memory_and_heap/mpagealloc.go:930-974 | the loop computes the fold that the exactness result is about |
| MergeSums.MergeExact | memory_and_heap/mpagealloc.go:930-974 | merging exact summaries of any number of equal blocks up to 2^21 pages is exact for the concatenation |
| PageAlloc.PageAlloc.Update | memory_and_heap/mpagealloc.go:381-468 | after any change inside the range every leaf is exact again and every upper entry is the merge of its children, at all five levels |
| PageAlloc.PageAlloc.UpdateLeaves | memory_and_heap/mpagealloc.go:389-432 | all leaves exact again through the one-chunk, contiguous and general paths; no change is reported exactly when a single chunk kept its summary |
| PageAlloc.PageAlloc.UpdateLevel | memory_and_heap/mpagealloc.go:437-465 | one level is merged again over the range of the changed children; a change is reported exactly when an entry differs |
| PageAlloc.PageAlloc.NodeExact | memory_and_heap/mpagealloc.go:381-468 | in an exact tree the entry at any level is the exact summary of all pages below it |
| PageAlloc.MergedAbove | memory_and_heap/mpagealloc.go:436-466 | stopping at a level that did not change leaves all levels above merged |
| PageAlloc.RangeAbove | memory_and_heap/mpagealloc.go:121-125 | the entries touched at a level cover the parents of those touched below, the extra one at a boundary included |
| PageAlloc.WholeChunkSums | memory_and_heap/mpagealloc.go:408-419 | the two packed constants are the exact summaries of a wholly free and a wholly allocated chunk |
| PageAlloc.LevelBytesExact | memory_and_heap/mpagealloc_64bit.go:19-56 | an entry of a level stands for its power of two of pages, and the entries of each level together for the whole address space |
| PageAlloc.RangeFits | memory_and_heap/mpagealloc.go:121-125 | the entries walked through are inside the level if and only if the range updated ends below the top of the address space |
| HuffmanTable.TableIsValid | http2/hpack/tables.go:151-433 | this repository's code table, permuted rows included, meets every hypothesis of the Huffman results, and through it every text comes back |
| HuffmanTable.NoPrefix | http2/hpack/tables.go:151-433 | no code of the table is a prefix of another |
| HuffmanTable.AllPlaced | http2/hpack/tables.go:151-433 | every row of the table is the code that its place among the codes of its length demands |
| HuffmanTable.ShorterFirst | http2/hpack/tables.go:151-433 | in the order of their bits every code of the table comes before all longer ones |
| HuffmanTrie.Trie.constructor | http2/hpack/huffman.go:141-169 | the trie built from any valid table leads every byte string exactly where the codes say |
| HuffmanTrie.Trie.Insert | http2/hpack/huffman.go:148-168 | adding one symbol keeps the trie exact for the symbols so far |
| HuffmanTrie.Fill | http2/hpack/huffman.go:162-167 | filling all slots that share a code's tail disturbs no other path |
| HuffmanTrie.WalkCreate | http2/hpack/huffman.go:151-158 | creating the inner nodes on the way to a code keeps every other path |
| Huffman.HuffmanDecode | http2/hpack/huffman.go:48-109 | what it accepts is the encoding of its result, so there is no second encoding; every encoding comes back as its text unless it is too long or its padding leads nowhere; and whatever the input, the error is about the length exactly when it begins with the codes of too many symbols |
| HuffmanCode.PaddingCanLeadNowhere | http2/hpack/huffman.go:79-84 | a table of nine-bit codes that is valid and whose one-symbol texts are all refused |
| Huffman.AppendHuffmanString | http2/hpack/huffman.go:173-230 | the 64-bit buffer with its 32-bit flushes and the padding at the end append exactly the codes and fewer than eight ones |
| Huffman.TailBytes | http2/hpack/huffman.go:215-229 | the last one to four bytes are the buffered bits padded with ones |
| Huffman.HuffmanEncodeLength | http2/hpack/huffman.go:234-243 | exactly the number of bytes appended |
| HuffmanCode.NextSymbol | http2/hpack/huffman.go:48-109 | what is left of an encoding begins with the code of its next symbol and of no other |
| HuffmanCode.OnlyEncoding | http2/hpack/huffman.go:79-108 | octets that read as a text's codes and fewer than eight ones are byte for byte its encoding |
| Huffman.NilRefutes | http2/hpack/huffman.go:60-64 | running into an empty slot proves that the input encodes no text |
| Huffman.FinalChecks | http2/hpack/huffman.go:97-106 | the checks on what is left accept exactly the proper padding |
| Huffman.MaskTest | http2/hpack/huffman.go:103 | the mask test holds exactly when the remaining bits are all ones |
| VarInt.AppendVarInt | http2/hpack/encode.go:324-340 | appends the octets of section 5.1, for every 64-bit number and prefix |
| VarInt.ReadVarInt | http2/hpack/hpack.go:587-623 | computes the groupwise sum of the specification function, with its 64-bit wrap and its error cases |
| VarInt.RoundTrip | http2/hpack/hpack.go:587-623 | whatever flags are set above the prefix: the number and exactly the suffix below 2^63 + 2^n - 1, and an overflow from there on |
| VarInt.StrictPrefix | http2/hpack/hpack.go:587-623 | every strict prefix of an encoding asks for more |
| VarInt.ExamplesOfTheStandard | http2/hpack/encode.go:324-340 | the three examples of section C.1 |
| VarInt.ReadExtends | http2/hpack/hpack.go:587-623 | whatever the octets: more input changes neither a number that was read nor an overflow |
| VarInt.Unwrapped | http2/hpack/hpack.go:611 | adding a group to a sum that fits does not wrap |
| HeaderTable.Table.AddEntry | http2/hpack/tables.go:51-58 | both maps again hold exactly the ids of the newest live matches |
| HeaderTable.Table.EvictOldest | http2/hpack/tables.go:62-91 | both maps stay exact while the n oldest entries go and ids move on |
| HeaderTable.NameEvicted | http2/hpack/tables.go:71-73 | a name leaves the map only when no newer entry has it |
| HeaderTable.Table.Find | http2/hpack/tables.go:106-119 | the lookup through the maps answers what the entries say |
| HeaderTable.Table.IdToIndex | http2/hpack/tables.go:126-149 | turns the id of a live entry into its index; the panic is out of reach |
| HeaderTable.SearchIsScan | http2/hpack/tables.go:106-119 | the search agrees with a scan from the newest entry |
| HeaderTable.SearchIsAt | http2/hpack/encode.go:148-163 | the index found has the field's name in the joint index space, and its value when a full match is reported |
| HeaderTable.FullMatch | http2/hpack/encode.go:148-163 | a full match is reported exactly when the field is not sensitive and some index has its name and value: a static one if there is one, otherwise the newest dynamic one |
| HeaderTable.NameMatch | http2/hpack/encode.go:148-163 | an index is reported exactly when some entry has the name; without a full match a static one if there is one, otherwise the newest dynamic one |
| HeaderTable.LastStatic | http2/hpack/tables.go:106-122 | of several static entries that match, the last one is reported |
| HeaderTable.AtJoint | http2/hpack/hpack.go:256-281 | indices count through the static table and then the dynamic one from its newest entry on, beginning with 1, and every other index is absent |
| DynamicTables.DynamicTable.SetMaxSize | http2/hpack/hpack.go:208-211 | the limit is set and the table evicted to it, the size being the sum of the entries' sizes |
| DynamicTables.DynamicTable.Evict | http2/hpack/hpack.go:226-246 | evicts to the limit |
| DynamicTables.DynamicTable.Add | http2/hpack/hpack.go:213-223 | appends without evicting, and keeps the size the sum of the entries' sizes modulo 2^32 |
| DynamicTables.EvictsFirst | http2/hpack/hpack.go:226-246 | eviction stops at the first suffix whose size, as counted in 32 bits, is within the limit, whatever the entries |
| DynamicTables.EvictsFewest | http2/hpack/hpack.go:226-246 | eviction drops the fewest oldest entries that bring the table within its limit |
| DynamicTables.EvictTwice | http2/hpack/hpack.go:208-246 | two limits one after the other leave what the smaller one leaves |
| HpackForms.EntrySize | http2/hpack/hpack.go:61-71 | an entry counts as its name, its value and 32 octets |
| Hpack.FieldBack | http2/hpack/hpack.go:413-512 | a representation followed by anything is consumed exactly, with the same name, value and sensitive flag, emitting or not, and adds to the decoder's table what it adds to the encoder's; the decoder may hold older entries besides |
| HpackForms.FormOf | http2/hpack/encode.go:84-115 | the first octet of what is sent: one index exactly when an entry is the field and it is not sensitive; indexed exactly when it is neither and fits the table; never indexed exactly when sensitive; a name by index exactly when some entry has it |
| HpackForms.BadIndex | http2/hpack/hpack.go:413-475 | index 0 and indices beyond both tables are refused, for a field and for a name |
| HpackForms.IndexedOverLimit | http2/hpack/hpack.go:519-531 | an indexed field is handed out unless its entry is over the limit on strings, and then it is an error |
| HpackForms.BigNumbers | http2/hpack/hpack.go:587-623 | an index, a length or a size that the reader cannot hold is reported as an overflow |
| HpackRuns.Lockstep | http2/hpack/encode.go:76-115 | over every run of blocks, with limits set anywhere and each block arriving in any pieces: all fields come out in order, even while the tables differ, unless an update is refused or an indexed literal is dropped |
| HpackRuns.BlockBack | http2/hpack/hpack.go:313-352 | what a decoder makes of a whole block, with its first error if there is one and all fields before that |
| HpackRuns.BlockInPieces | http2/hpack/hpack.go:323-348 | the same however the block is split into writes, also with a limit on strings |
| HpackRuns.SendBack | http2/hpack/hpack.go:376-410 | one field after any limits: refused exactly when `Refused` says so, dropped exactly when it is indexed and the dispatch drops such results, and otherwise handed out as it was sent |
| HpackRuns.CallKeepsStep | http2/hpack/encode.go:172-214 | whatever limits are set, the encoder's table stays what the decoder's is going to be less some oldest entries |
| HpackRuns.EqualAgain | http2/hpack/encode.go:172-214 | the tables are equal after the first field exactly under the condition of `AgreesIff` |
| HpackStream.TwoWrites | http2/hpack/hpack.go:313-352 | for any octets, a second write ends as one write of both would have, errors included unless one is only about what has to be kept |
| HpackStream.AnySplit | http2/hpack/hpack.go:313-352 | the same for any number of writes: how a block is split does not matter |
| HpackStream.SplitCanFail | http2/hpack/hpack.go:331-342 | a field that is read in one write and refused when its last octet comes in a second one |
| HpackStream.FieldCutOff | http2/hpack/hpack.go:323-348 | a representation cut off anywhere asks for more and changes nothing, exactly unless it is indexed and the dispatch drops its result |
| Hpack.StringBack | http2/hpack/hpack.go:629-692 | a string literal is read back, Huffman-coded or not, and exactly its octets are consumed |
| Hpack.StringCutOff | http2/hpack/hpack.go:629-669 | a string literal cut off anywhere asks for more |
| HpackForms.StringForm | http2/hpack/encode.go:349-361 | a string is Huffman-coded exactly when that is strictly shorter, and the flag says so |
| HpackForms.StringOverLimit | http2/hpack/hpack.go:629-692 | a string over the limit is refused as soon as its length is known, or is read as the empty string when only its octets are within the limit |
| HpackForms.DroppedError | http2/hpack/hpack.go:677-692 | a value that is no Huffman encoding is handed out as the empty string |
| Hpack.HuffmanInjective | http2/hpack/huffman.go:173-229 | different texts have different encodings |
| Hpack.PendingAccepted | http2/hpack/hpack.go:550-575 | pending size updates are accepted if and only if there is one or the first one empties the table, whatever minimum was remembered |
| Hpack.UpdateBack | http2/hpack/hpack.go:550-575 | a size update is taken exactly when it comes first or the table is empty, and it is within the allowed size; a larger one is refused and not cut down |
| HpackRuns.UpdateRead | http2/hpack/hpack.go:313-352 | the same through a write, with the error, the table and nothing handed out |
| Hpack.PendingRefused | http2/hpack/hpack.go:550-575 | a table of one empty field, limits 100 and 4096: the second update is refused |
| Hpack.IndexingShows | http2/hpack/encode.go:248-294 | a representation begins with the bits 01 exactly when the field enters the encoder's table |
| HpackLimits.AgreesIff | http2/hpack/encode.go:172-214 | from any equal tables and after any calls that set limits, both tables agree if and only if what the decoder keeps fits the smallest limit the encoder evicted to |
| HpackLimits.AnnouncedAgree | http2/hpack/encode.go:172-190 | as long as no limit is cut down from outside, the tables agree after any calls |
| HpackLimits.LimitHolds | http2/hpack/encode.go:172-214 | what the peer allows holds for every size set later, and a size within it counts |
| HpackLimits.LimitAbove | http2/hpack/encode.go:206-214 | allowing no less than the limit in force changes nothing else |
| HpackLimits.EvictTails | http2/hpack/hpack.go:226-246 | eviction to one limit keeps a table that lacks some oldest entries a tail of the other |
| HpackLimits.ForcedLimitDisagrees | http2/hpack/encode.go:206-214 | a forced limit of 0, raised again, empties only the encoder's table |
| Hpack.OnlySmallestMatters | http2/hpack/encode.go:172-190 | however many limits were set, the table is the one evicted to the smallest |
| HpackCodec.Encoder.WriteField | http2/hpack/encode.go:76-122 | the buffer is the pending updates and the representation of the field, and the state is the one the results on runs are about |
| HpackCodec.Encoder.SearchTable | http2/hpack/encode.go:148-163 | static before dynamic, a full match before a name match |
| HpackCodec.Encoder.SetMaxDynamicTableSize | http2/hpack/encode.go:172-190 | caps the limit, remembers the smallest one and evicts |
| HpackCodec.Encoder.SetMaxDynamicTableSizeLimit | http2/hpack/encode.go:206-214 | evicts when it cuts the limit down, and leaves the smallest one remembered as it was |
| HpackCodec.AppendHpackString | http2/hpack/encode.go:349-361 | Huffman-coded exactly when that is strictly shorter, with the flag set in the right octet |
| HpackCodec.AppendLiteral | http2/hpack/encode.go:264-294 | a literal with a new name or an indexed one, type bits and prefix included |
| HpackCodec.Decoder.ParseFieldIndexed | http2/hpack/hpack.go:413-447 | status, rest, table and output are those of the specification parser, in every error case too |
| HpackCodec.Decoder.ParseFieldLiteral | http2/hpack/hpack.go:451-512 | the same for literals of all three kinds |
| HpackCodec.Decoder.DecodeString | http2/hpack/hpack.go:677-692 | the text, or the empty one where the code drops the decoder's error |
| HpackCodec.Decoder.ParseDynamicTableSizeUpdate | http2/hpack/hpack.go:550-575 | when an update is taken, and that a refused one changes nothing |
| HpackCodec.Decoder.ParseHeaderFieldRepr | http2/hpack/hpack.go:376-410 | the first octet selects the parser; as it stands, an incrementally indexed literal is parsed, emitted and added, and then reported as an error |
| HpackCodec.Decoder.Write | http2/hpack/hpack.go:313-352 | the loop reads as the specification does, keeps what is cut off, and refuses to keep too much |
| HpackCodec.Decoder.Close | http2/hpack/hpack.go:304-311 | a block that ends in the middle of something is an error, otherwise the next one begins |
| HpackCodec.Transmit | http2/hpack/encode.go:76-214 | encoder and decoder objects joined: limits and fields in any order, with the fields handed out, the status, and both states afterwards |
| HpackCodec.FirstField | http2/hpack/encode.go:76-122 | the first field after any limits: whether it is refused, and exactly when both objects hold equal tables again |
| Channel.HChan.Fifo | channels_and_select/chan.go:205-268 | receivers see a prefix of what was sent, the next value is the oldest one held, and a drained closed channel has lost only what its parked senders held |
| Channel.HChan.Send | channels_and_select/chan.go:205-268 | outcome, buffer and both queues after a send, in every case, and what a parked goroutine holds; parked senders imply a full buffer, parked receivers an empty one, never both, and sendx = recvx + qcount around the ring |
| Channel.HChan.Recv | channels_and_select/chan.go:564-642 | outcome and state after a receive, and whether a parked goroutine wants its value; every value handed out is the oldest one not yet received, also after close |
| Channel.HChan.IndicesModulo | channels_and_select/chan.go:31-34 | the send index is the receive index plus the count, modulo the size |
| Channel.FastSend | channels_and_select/chan.go:178-198 | giving up without the lock is justified by a moment, open and not ready, whatever happened between the two reads, if and only if the channel has a buffer, is still open, or had no receiver waiting |
| Channel.UnlockedSend | channels_and_select/chan.go:178-198 | the fast path on the object while others run any locked sections in between |
| Channel.FastSendMisled | channels_and_select/chan.go:178-198 | closing an unbuffered channel on a waiting receiver leaves no such moment |
| Channel.FastRecv | channels_and_select/chan.go:523-556 | a receive that gives up was right at its first read, and one that reports closed and empty is right from its last read on |
| Channel.UnlockedRecv | channels_and_select/chan.go:523-556 | the fast path on the object, with its three reads among any locked sections |
| Channel.Sections | channels_and_select/chan.go:205-460 | the states that sends, receives and closes leave behind are a chain of legal moves |
| Channel.HChan.HandOff | channels_and_select/chan.go:215-222 | the value goes straight to the first parked receiver and overtakes nothing |
| Channel.HChan.TakeOver | channels_and_select/chan.go:582-595 | the oldest value goes out and the first parked sender's goes in last |
| Channel.HChan.RecvFrom | channels_and_select/chan.go:673-721 | with no buffer the sender's value, otherwise head out and sender's value in at the same slot |
| Channel.RingSwap | channels_and_select/chan.go:690-713 | overwriting the head of a full ring and moving both indices takes the oldest value out and puts the new one in last |
| Channel.HChan.Close | channels_and_select/chan.go:383-460 | all parked goroutines are released without success, last parked first, and receivers that wait for a value get the zero value; sent, received and buffered values stay; closing twice panics |
| Channel.WaitQ.Enqueue | channels_and_select/chan.go:774-787 | the doubly linked list is well formed and ends with the new entry |
| Channel.WaitQ.Dequeue | channels_and_select/chan.go:792-812 | the doubly linked list is well formed without its first entry, which is returned |
| Frames.FrameBack | http2/http2/frame.go:261-273 | a written header and payload are read back, stream modulo 2^31, and nothing beyond them is touched |
| FrameForms.HeaderOctets | http2/http2/frame.go:431-471 | the nine octets of a header: length, type, flags and stream, most significant first |
| FrameForms.FrameCutOff | http2/http2/frame.go:597-612 | a frame cut off is an unexpected end, but one cut off right behind its header is the end of the input |
| FrameForms.TypeDecides | http2/http2/frame.go:132-151 | types 0 to 9 have parsers of their own, and a frame of another type comes back as it is |
| Frames.DataLayout | http2/http2/frame.go:741-775 | a DATA payload is accepted with some data if and only if it is laid out as section 6.1 says around that data |
| Frames.HeadersLayout | http2/http2/frame.go:1478-1529 | the same for HEADERS, with the fields its flags announce |
| Frames.PushPromiseLayout | http2/http2/frame.go:1941-1982 | the same for PUSH_PROMISE |
| Frames.RSTStreamLayout | http2/http2/frame.go:1764-1781 | RST_STREAM is accepted if and only if it is one 32-bit code on a stream other than 0 |
| Frames.WindowUpdateLayout | http2/http2/frame.go:1350-1378 | WINDOW_UPDATE is accepted if and only if it is one number whose low 31 bits are not all zero, which are the increment |
| FrameForms.PriorityLayout | http2/http2/frame.go:1677-1701 | PRIORITY is accepted if and only if it is five octets that say so, on a stream other than 0 |
| FrameForms.SettingsLayout | http2/http2/frame.go:957-999 | SETTINGS is accepted if and only if it is on stream 0, a whole number of settings, none if it acknowledges, and its first initial window size is not too large |
| FrameForms.PingLayout | http2/http2/frame.go:1126-1150 | PING is accepted if and only if it is eight octets on stream 0, which are its data |
| FrameForms.GoAwayLayout | http2/http2/frame.go:1267-1289 | GOAWAY is accepted if and only if it is on stream 0 and is two numbers and debug data; the error code is taken from the first number |
| FrameForms.ContinuationLayout | http2/http2/frame.go:1822-1829 | CONTINUATION is accepted if and only if it is on a stream other than 0 |
| FrameForms.SizeErrors | http2/http2/frame.go:957-1378 | when a frame is refused for its size: the rules of section 6, and which types look at the length before the stream |
| FrameForms.ProtocolErrors | http2/http2/frame.go:741-1378 | when it is a protocol error: the wrong stream, padding that is too long, an increment of 0 for the connection |
| FrameForms.StreamErrors | http2/http2/frame.go:1350-1529 | when it is an error of one stream |
| FrameForms.ShortErrors | http2/http2/frame.go:741-1982 | when it is an unexpected end: less than what padding and flags put in front |
| FrameForms.FlowErrors | http2/http2/frame.go:985-997 | when it is a flow control error |
| FrameForms.NoOtherErrors | http2/http2/frame.go:741-1982 | there are no other errors |
| Frames.DataBack | http2/http2/frame.go:827-882 | a legal DATA frame, padded or not, is read back with stream, flags and data |
| FrameForms.PingBack | http2/http2/frame.go:1126-1150 | a PING on stream 0 is read with all its eight octets |
| FrameForms.UnknownBack | http2/http2/frame.go:1322-1324 | a frame of an unknown type is read as it is, on any stream |
| FrameForms.RSTStreamBack | http2/http2/frame.go:1764-1781 | RST_STREAM is read back |
| FrameForms.WindowUpdateBack | http2/http2/frame.go:1350-1378 | WINDOW_UPDATE is read back |
| FrameForms.SettingOctets | http2/http2/frame.go:1076-1089 | a setting is two octets of identifier and four of value |
| FrameForms.PriorityOctets | http2/http2/frame.go:1707-1733 | a priority is the exclusive bit, the stream and the weight, in this order |
| FrameForms.FlagBits | http2/http2/frame.go:1567-1618 | which bit of the flags octet says what |
| Frames.HeadersBack | http2/http2/frame.go:1567-1618 | a legal HEADERS frame is read back with padding, priority and fragment |
| Frames.PushPromiseBack | http2/http2/frame.go:2015-2049 | a legal PUSH_PROMISE frame is read back |
| Frames.PriorityFrameBack | http2/http2/frame.go:1677-1733 | a legal PRIORITY frame is read back, exclusive flag and weight included |
| Frames.SettingsBack | http2/http2/frame.go:957-1026 | every setting is read back at its place if the first initial window size is below 2^31, and only then |
| Frames.SettingsAckBack | http2/http2/frame.go:1095-1101 | an acknowledgement comes back as one |
| Frames.ContinuationBack | http2/http2/frame.go:1822-1829 | a legal CONTINUATION frame is read back |
| Frames.GoAwayBack | http2/http2/frame.go:1267-1289 | last stream and debug data come back; the error code does if and only if it equals the last stream |
| Framers.Framer.EndWrite | http2/http2/frame.go:448-471 | the length is filled in and the frame written, or nothing is written when 24 bits cannot hold the length |
| Framers.Framer.WriteDataPadded | http2/http2/frame.go:815-882 | exactly the frame's bytes, or one of four errors and nothing at all; no padding differs from padding of no bytes |
| Framers.Framer.WriteHeaders | http2/http2/frame.go:1567-1618 | the same for HEADERS, the dependent stream being checked only when there is a priority |
| Framers.Framer.WritePushPromise | http2/http2/frame.go:2015-2049 | the same for PUSH_PROMISE |
| Framers.Framer.WritePriority | http2/http2/frame.go:1707-1733 | the same for PRIORITY |
| Framers.Framer.WriteSettings | http2/http2/frame.go:1076-1089 | the same for SETTINGS |
| Framers.Framer.WriteContinuation | http2/http2/frame.go:1852-1866 | the same for CONTINUATION |
| Framers.Framer.ParseSettingsFrame | http2/http2/frame.go:957-999 | the loop over the settings decides as the specification function does |
| Framers.Framer.CheckFrameOrder | http2/http2/frame.go:647-687 | what is refused, and the stream that is then expected; the last frame is there whenever it is needed |
| Framers.Framer.ReadFrame | http2/http2/frame.go:597-633 | one frame off the input, by its parser and the order check; the frames returned so far stay an accepted sequence |
| Framers.ReturnedFramesSplit | http2/http2/frame.go:597-687 | whatever a framer has returned splits into single frames and header blocks |
| FrameOrder.OrderExact | http2/http2/frame.go:647-687 | a sequence is let through if and only if it splits into single frames and blocks of HEADERS CONTINUATION* on one stream that end with END_HEADERS, the last block possibly open |
| FrameOrder.AcceptedSplits | http2/http2/frame.go:647-687 | the split itself, and that the expected stream is that of the open block |
| FrameOrder.StreamZeroSlipsThrough | http2/http2/frame.go:678-684 | without the parsers' refusal of stream 0 a broken block would pass |
| Frames.ParsedHeader | http2/http2/frame.go:1483-1490 | header block frames that are parsed name a stream |
| NeedsZero.Safety | memory_and_heap/mheap.go:532-610 | in every interleaving: overlapping allocations are never reported, pages said to be zero were never handed out before, and the watermarks are past every page handed out |
| NeedsZero.ZeroedForAReason | memory_and_heap/mheap.go:562-573 | in every interleaving, a call that says its pages need zeroing met, in one of its arenas, a page handed out to another call at or above where its own part begins |
| NeedsZero.FreshPagesAreZero | memory_and_heap/mheap.go:562-573 | a call beyond every page handed out to others in its arenas is told not to zero |
| NeedsZero.Monotone | memory_and_heap/mheap.go:588-603 | no watermark ever goes down |
| NeedsZero.Progress | memory_and_heap/mheap.go:533-608 | both loops end: each step of a thread leaves it less to do and no other thread's step adds to it |
| NeedsZero.Segment | memory_and_heap/mheap.go:581-607 | each round takes whole pages, exactly up to the end of the arena or of the range, and the rest is what was left |
| NeedsZero.LimitsApart | memory_and_heap/mheap.go:594-602 | where one call leaves a watermark is never inside the part of another call |
| MarkBits.Safety | memory_and_heap/mheap.go:1385-1458 | in every interleaving: ranges handed out are 8-byte aligned, inside their arena and disjoint, those for some elements start inside it, and allocating from a fresh arena fails only for requests larger than an arena |
| MarkBits.BitsApart | memory_and_heap/mheap.go:1385-1458 | in every interleaving, no mark bit asked for belongs to two callers or lies outside its arena |
| MarkBits.GrantedIff | memory_and_heap/mheap.go:1385-1405 | adding to a bump pointer is granted exactly when the bits fit; the range begins where the pointer stood, and it moves on by whole words with fewer than 64 bits to spare |
| MarkBits.TriedIff | memory_and_heap/mheap.go:1385-1411 | the first try is with the current arena, and a try gives up early exactly when there is none or the bits do not fit |
| MarkBits.ArenasNeeded | memory_and_heap/mheap.go:1414-1516 | an arena is put to use only if the current one has no room for the request, and mapped only if none is set aside |
| MarkBits.Progress | memory_and_heap/mheap.go:1403-1458 | every call ends: each step leaves it less to do, unless it waits for the lock, which another thread then holds |
| MarkBits.NoArenaLost | memory_and_heap/mheap.go:1403-1516 | when no call is under way every arena obtained is on the next list or the free list, once |
| MarkBits.StepKeepsExclusive | memory_and_heap/mheap.go:1473-1484 | the lock has one holder throughout, though growing drops it |
| MarkBits.StartsAtTheEndIff | memory_and_heap/mheap.go:1385-1399 | in every run a range starts one past its arena if and only if it is for no elements and the arena is full |
| MarkBits.EmptyRequestAtTheEnd | memory_and_heap/mheap.go:1385-1399 | such a run: one thread asks for 524160 elements and then for none |
| PersistentAllocs.PersistentAlloc.Alloc | memory_and_heap/malloc.go:691-786 | the new block overlaps no earlier one and no list word; it comes right behind the last one when the chunk has room there, and a chunk is taken exactly when it has none; aligned as asked up to the alignment of mappings |
| PersistentAllocs.PersistentAlloc.NewChunk | memory_and_heap/malloc.go:744-772 | the new chunk heads the list through the first words, and earlier blocks stay where they are |
| PersistentAllocs.PersistentAlloc.BlocksSafe | memory_and_heap/malloc.go:691-786 | any two blocks handed out are disjoint, and none touches the first word of any chunk |
| PersistentAllocs.PowerOfTwoTest | memory_and_heap/malloc.go:699-702 | the bit test accepts exactly the powers of two |
| PersistentAllocs.AlignUp | memory_and_heap/stubs.go:41-43 | the least multiple of the alignment at or above the offset |
| PersistentAllocs.PowersAlign | memory_and_heap/malloc.go:738-774 | what is aligned to a power of two is aligned to every smaller one |
| FixAllocs.FixAlloc.Init | memory_and_heap/mfixalloc.go:81-102 | sizes below a word are raised to one, a chunk is as many blocks as fit, and the allocator starts empty |
| FixAllocs.Start | memory_and_heap/mfixalloc.go:81-102 | any number of new allocators over one persistent allocator start in the state that runs keep |
| FixAllocs.FixAlloc.Alloc | memory_and_heap/mfixalloc.go:104-138 | the block freed last, or else the next one of the chunk; a chunk is taken exactly when nothing is freed and the old one has no room; disjoint from every live block; inuse is size times the live blocks; what others own stays theirs |
| FixAllocs.FixAlloc.Free | memory_and_heap/mfixalloc.go:141-146 | the block heads the free list, inuse goes down by one block |
| FixAllocs.FixAlloc.LiveApart | memory_and_heap/mfixalloc.go:104-146 | live blocks are pairwise disjoint |
| FixAllocs.LiveMissesList | memory_and_heap/mfixalloc.go:104-146 | a live block touches no word that the list of chunks runs through |
| FixAllocs.AllocatorsApart | memory_and_heap/mfixalloc.go:104-146 | live blocks of different allocators over one persistent allocator are disjoint |
| FixAllocs.HeldApart | memory_and_heap/mfixalloc.go:104-146 | blocks held from any number of allocators are pairwise disjoint and touch no list word |
| FixAllocs.Run | memory_and_heap/mfixalloc.go:104-146 | after any run of takes and gives by any number of allocators, as many blocks are held of each as the choices say, and they are pairwise disjoint and touch no list word |

## Left out

- 64-bit words of the page bitmap are sequences of 64 booleans, bit 0 first; that adding one and the bit counts mean what the code's arithmetic computes is proved in `Words` and `BitCounts`.
- `OnesCount64` (memory_and_heap/stubs.go:108-131), used only by `popcntRange`.
- PageAlloc.PageAlloc.Update: the range ends below the top of the address space, because at the top the code leaves its arrays (`PageAlloc.RangeFits`); the two-level index of chunks is one sequence.
- `pageAlloc.find`, `allocRange`, `grow`, page cache and address ranges; several of them do not do what their comments say, and none is needed here.
- `pageBits.setRange`, `clearRange` and `popcntRange`, whose behaviour differs from their comments.
- The success return of `findLargeN` after its loop (memory_and_heap/mpallocbits.go:452) is never taken, which the proof of `FindPages.FindLargeN` uses.
- HuffmanTrie.Trie.constructor: pointers of the trie are indices into one sequence of nodes, so aliasing is not modelled; the once-only construction is left out.
- The Huffman results are stated for any valid table; `HuffmanTable` shows that this repository's does. The static header table is a parameter: any sequence of entries.
- HeaderTable.Table.EvictOldest: ids are unbounded, where the code counts evictions in 64 bits.
- DynamicTables.EvictsFewest: the sum of the entry sizes is below 2^32; above it the code counts modulo 2^32, which `DynamicTables.EvictsFirst` and the methods follow.
- HpackCodec.Decoder.Write: `saveBuf` is a value, so that the buffer may share its memory with the input is not modelled; `DecodeFull` and the count of octets taken are left out.
- Channels: nil channels, select, what a goroutine does after it is woken, and reads that are not sequentially consistent. The hand-off branch is the dequeue at chan.go:215 followed by `send`, the call its comment names.
- Framer: errors and short writes of the underlying writer, frame reuse, logging, merging of header blocks into one frame, and the writers of RST_STREAM, PING, WINDOW_UPDATE, GOAWAY and raw frames. PUSH_PROMISE is not tracked by the order check, as in the code.
- NeedsZero.Safety: the method is a state machine over its atomic accesses rather than a loop, because other threads run in between; addresses are linear ones, and arenas exist when pages of them are handed out.
- MarkBits.Safety: a state machine for the same reason; arenas are numbers, the bump pointer is unbounded, mapping memory never fails.
- PersistentAllocs.PersistentAlloc.Alloc: one allocator, so the compare-and-swap on the chunk list always succeeds; memory is addresses, and where the operating system maps next is a parameter; statistics are left out.
- FixAllocs.FixAlloc.Alloc: the callback for first use and the clearing of memory.
- Proxies, HTTP server, MIME, stacks, write barriers and assembly.
