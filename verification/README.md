# Verified models of the boot loader's vendored algorithms

Dafny models of the compression, checksum, division and lookup code that the
boot loader carries: bzip2, zlib, the 64-bit divide of libstand and the range
lookup of its HAMMER2 reader. Every model follows the control flow of its C
function, in place where the C works in place, and is proved against a
mathematical specification that does not mention the implementation. `dafny
verify dfyconfig.toml` covers the whole project.

What each group of files is about:

- **Long division** (`QDivRem`). Knuth's Algorithm D on four base-2^16 digits:
  normalisation, trial digits, wrap-around subtraction, add-back, and the signed
  wrappers with the one pair of operands for which they are wrong.
- **bzip2 decoding** (`BitReader`, `HuffmanTables`, `SymbolGroups`,
  `MoveToFront`, `SymbolLoop`, `CountingRank`, `BurrowsWheeler`,
  `InverseTransform`, `RunLength`, `BlockOutput`). From bits to output bytes, in
  the fast and the small mode. Both modes are proved to hand out the same
  expansion of the same chain; the chain is proved to spell the block; the
  output is proved independent of how calls cut it up.
- **bzip2 encoding** (`RunLengthEncoder`, `WeightHeap`, `CodeLengths`). The
  run-length input stage as an invariant over all calls, and the builder of
  Huffman code lengths, which ends and whose code is an optimal one for the
  weights it ends with (`OptimalCode`). `BlockRoundTrip` joins encoder and
  decoder: whatever code lengths, selectors and alphabet order were chosen, the
  coded transform of a finished block decodes to that block's input.
- **inflate** (`CodeSpace`, `SortedCodes`, `InflateTable`, `InflateBits`,
  `InflateSymbols`, `InflateMachine`, `InflateFast`, `InflateCalls`, `Window`,
  `MatchCopy`, `SyncSearch`). Two-level decoding tables are proved to decode the
  canonical code of section 3.2.2 of RFC 1951. One function says what a symbol
  does to the unread bits and the output, or that there are too few bits for it;
  the suspendable states and the unchecked fast loop are both proved to be
  repeated applications of it, for every continuation of the input. So the two
  agree bit for bit, and any sequence of calls decodes what one call would. The
  window is proved to be the recent output.
- **deflate** (`Lz77`, `RollingHash`, `HashChains`, `DeflateState`,
  `LongestMatch`, `DeflateSlow`, `DeflateEager`). The tokens are proved to expand
  to exactly the input, across any number of window slides, flushes and calls,
  for the lazy, the fast and the run matcher. The hash chains are proved sound
  and complete, and a search that is not cut short leaves no better match in
  reach. The state keeps its real, sliding positions; a ghost base turns them
  into absolute ones.
- **deflate to inflate** (`DeflateFormat`, `DeflateRoundTrip`). The tokens of the
  blocks that deflate flushes, written with any codes that cover them, inflate to
  deflate's input.
- **Adler-32** (`Adler32`) and **HAMMER2 lookup** (`H2Lookup`).
- Shared: `Bits` (powers of two, quotients, bit fields), `Permutations`.

Where code and comments differ, the code is modelled. The comment of
`longest_match` says that a search without success returns `prev_length`; the
code returns the lookahead if that is less. The two output loops of bzip2 differ
on a block that ends inside a run: the fast one reports corruption as soon as the
last byte is written and throws away what the call wrote, the small one hands the
bytes over and reports corruption only if room is left. `inflate_fast` is said to
be entered with fewer than 8 bits in `hold` (inffast.c:45); a call may also enter
it with more, left by a code that the input of the call before did not complete,
and that does no harm: the first code uses them up, so no byte of an earlier
input is given back. A match may start at `MAX_DIST`, but a link is followed only
to a string closer than that (deflate.c:1284), so what a search leaves out is
stated for distances below `MAX_DIST`. A read that fails inside `h2lookup`
overwrites the buffer but leaves `saved_base` (hammer2.c:322-326 and 403-406),
so that a later lookup may take the buffer for a block it no longer holds: the
claim about the buffer survives a failed read if and only if it claimed nothing,
and a lookup without a base makes it right again.

Facts worth knowing when reading the contracts: a block of bits is a sequence of
zeros and ones for bzip2 (first bit first) and for zlib a `Queue`, a natural
number (first bit lowest) and a count; `Back(l)` is T^-1, `Chain` walks it;
`Expand` of `RunLength` is the one-shot run-length expansion and `Expand` of
`Lz77` that of tokens; `Look` is a two-level table lookup and `Symbol` the effect
of one deflate symbol; `Shows` says that the window holds the data, `Chained`
that every link is sound and every recent string on its chain, `Unbeaten` that no
string in reach is better, and `Tallied(n)` that the tokens spell the data up to
n.

## Model

| member | source | states |
|---|---|---|
| QDivRem.QDivRem | src/lib/libstand/qdivrem.c:78-272 | for every 64-bit dividend and non-zero divisor the quotient and remainder satisfy u = q*v + r with r < v; a zero divisor is the separate outcome |
| QDivRem.TrialDigit | src/lib/libstand/qdivrem.c:203-220 | after the correction loop qhat is the largest digit (at most B - 1) whose product with the two leading divisor digits does not exceed the three leading dividend digits; the label in the middle of the loop is one of its two entries |
| QDivRem.TrialTest | src/lib/libstand/qdivrem.c:215-220 | the loop test decides exactly whether qhat is too large, its 32-bit product never wraps, and zero is never too large |
| QDivRem.TrialDigitBound | src/lib/libstand/qdivrem.c:195-220 | with a normalised divisor the trial digit is the true digit or one more (Knuth, theorem B), for divisors of any length |
| QDivRem.MultiplySubtract | src/lib/libstand/qdivrem.c:227-233 | the in-place loop leaves the window minus qhat times the divisor, with the borrow out of the leading digit |
| QDivRem.SubtractedValue | src/lib/libstand/qdivrem.c:227-231 | the wrap-around words of the subtraction stand for u - q*v + borrow * B^n: no 32-bit intermediate loses information |
| QDivRem.BorrowSplit | src/lib/libstand/qdivrem.c:228-230 | (B - HHALF(t)) & (B - 1) is the borrow of the wrapped word, over its whole range |
| QDivRem.AddBack | src/lib/libstand/qdivrem.c:240-248 | the add-back loop adds the divisor into the window and drops the last carry |
| QDivRem.AddedValue | src/lib/libstand/qdivrem.c:242-246 | digit-wise addition stands for the sum of the values, carry included |
| QDivRem.QuotientDigit | src/lib/libstand/qdivrem.c:195-249 | one round of D3 to D6 finds the exact quotient digit and leaves a window smaller than the divisor |
| QDivRem.DigitFound | src/lib/libstand/qdivrem.c:234-248 | no borrow means the digit was right; a borrow means one too many, and adding back once repairs it |
| QDivRem.Normalise | src/lib/libstand/qdivrem.c:176-185 | the shift makes the leading divisor digit at least B/2 and multiplies both numbers by the same power of two without losing a bit |
| QDivRem.Shl | src/lib/libstand/qdivrem.c:60-68 | in place, the digits shifted left, less exactly what falls out of the leading digit; digits outside are untouched |
| QDivRem.ShiftSplit | src/lib/libstand/qdivrem.c:66-67 | a shifted digit splits into the carried bits and a low half with clear low bits, so the or in shl never carries |
| QDivRem.SkipZeros | src/lib/libstand/qdivrem.c:167-168 | m and the new u[0] describe the dividend without leading zero digits |
| QDivRem.ShortDivide | src/lib/libstand/qdivrem.c:134-159 | the unrolled one-digit case gives the exact quotient and remainder |
| QDivRem.QuotientDigits | src/lib/libstand/qdivrem.c:186-250 | all rounds together: dividend = quotient * divisor + what is left, which is below the divisor |
| QDivRem.Unshift | src/lib/libstand/qdivrem.c:258-263 | shifting the remainder right digit by digit is division by 2^d |
| QDivRem.Remainder | src/lib/libstand/qdivrem.c:257-267 | the four digits handed back are the scaled remainder divided by 2^d, although only n digits are shifted |
| QDivRem.LongDivide | src/lib/libstand/qdivrem.c:162-271 | two to four divisor digits: exact quotient and remainder |
| QDivRem.DivDI3 | src/lib/libstand/qdivrem.c:301-317 | the signed quotient truncates toward zero if and only if the operands are not MIN and -1 |
| QDivRem.ModDI3 | src/lib/libstand/qdivrem.c:325-341 | the signed remainder always belongs to the truncating quotient and has the dividend's sign |
| BitReader.Reader.GetBits | src/contrib/bzip2/decompress.c:43-65 | hands out exactly the next n unread bits, most significant first, wherever the input is cut into calls; where a call runs out the next one goes on, and nothing is lost when no further call comes |
| BitReader.Refilled | src/contrib/bzip2/decompress.c:55-58 | shifting a byte into the 32-bit buffer can only lose bits that were already handed out |
| HuffmanTables.AssignCodes | src/contrib/bzip2/huffman.c:152-166 | every symbol gets its canonical code: by length, then by symbol |
| HuffmanTables.CreateDecodeTables | src/contrib/bzip2/huffman.c:170-200 | limit, base and perm are those of the canonical code of the lengths, for all lengths 1 to 20 |
| HuffmanTables.FitsExactlyKraft | src/contrib/bzip2/huffman.c:152-166 | the code words fit their lengths if and only if the lengths satisfy Kraft's inequality |
| HuffmanTables.UniqueMatch | src/contrib/bzip2/huffman.c:152-166 | no bit string begins with two different code words, so no shorter prefix is ever accepted |
| HuffmanTables.WrittenMatches | src/contrib/bzip2/huffman.c:152-166 | a code word written most significant bit first is recognised as its symbol and exactly its length is consumed, whatever follows |
| HuffmanTables.EntriesFit32 | src/contrib/bzip2/huffman.c:190-199 | no table entry outgrows a 32-bit integer even for lengths that are not a code |
| HuffmanTables.LimitTest | src/contrib/bzip2/decompress.c:93-96 | zvec <= limit[zn] exactly when the bits read so far are a code of this length or precede the later ones |
| HuffmanTables.FetchSymbol | src/contrib/bzip2/decompress.c:88-101 | decodes the one symbol whose code word the bits begin with, across calls if need be, or reports that there is none in all the input to come, or none in 20 bits |
| SymbolGroups.SymbolSource.Next | src/contrib/bzip2/decompress.c:74-102 | fifty symbols per selector: the symbols handed out so far are always the ones the bits spell, wherever the input is cut into calls, and a refusal is for a missing selector, the end of all input or no code |
| SymbolGroups.SpellsUnique | src/contrib/bzip2/decompress.c:74-102 | bits spell one symbol sequence only, as far as two readings go |
| SymbolGroups.WrittenSpells | src/contrib/bzip2/decompress.c:74-102 | symbols written with the selected codes are read back and leave the rest of the bits |
| MoveToFront.MtfList.Init | src/contrib/bzip2/decompress.c:358-370 | sets the sixteen blocks to the identity list |
| MoveToFront.MtfList.Decode | src/contrib/bzip2/decompress.c:423-474 | returns element nn of the 256-element list and moves it to the front, for every nn, with the blocks still apart and inside the array |
| MoveToFront.MtfList.DecodeNear | src/contrib/bzip2/decompress.c:429-444 | the four-at-a-time shift within the first block is a move to front |
| MoveToFront.MtfList.DecodeFar | src/contrib/bzip2/decompress.c:446-462 | opening a hole in one block and passing a byte down through the others is a move to front |
| MoveToFront.MtfList.Rebuild | src/contrib/bzip2/decompress.c:463-472 | copying the blocks to the top of the array in place keeps the list |
| MoveToFront.CellsApart | src/contrib/bzip2/decompress.c:455-460 | the byte written below a block can only overwrite the one byte that has just been copied away |
| SymbolLoop.ReadSymbols | src/contrib/bzip2/decompress.c:349-486 | the block storage holds exactly the column the symbols mean and unzftab its byte counts, however the input is cut into calls; otherwise the outcome says which of the end of all input, an unreadable symbol or an over-long block it was |
| SymbolLoop.ReadRun | src/contrib/bzip2/decompress.c:381-398 | a run of RUNA and RUNB symbols is a number in base two with digits one and two; it is refused for its size only when the block would be too long anyway |
| SymbolLoop.DigitsOfNumber | src/contrib/bzip2/decompress.c:381-398 | every such numeral is the only one of its number |
| SymbolLoop.NumberOfDigits | src/contrib/bzip2/decompress.c:381-398 | every number has such a numeral |
| SymbolLoop.TakeRun | src/contrib/bzip2/decompress.c:399-415 | stores the run and counts it, or reports that it does not fit |
| SymbolLoop.TakeIndex | src/contrib/bzip2/decompress.c:421-481 | stores, counts and moves to front one indexed symbol |
| SymbolLoop.DecodeEncode | src/contrib/bzip2/decompress.c:375-486 | decoding the run-and-index coding of any column gives the column back |
| SymbolLoop.ReadsBack | src/contrib/bzip2/decompress.c:349-486 | bits written for a column that fits are read as that column and the bits after them are untouched |
| BurrowsWheeler.ChainSpellsBlock | src/contrib/bzip2/decompress.c:494-516 | for every block, periodic ones too: following T^-1 from the given row spells the block |
| BurrowsWheeler.StepBack | src/contrib/bzip2/decompress.c:560-564 | the row before a row is the same rotation moved by one byte, even among equal rotations |
| BurrowsWheeler.SortedRowsAgree | src/contrib/bzip2/decompress.c:560-564 | two sorted orders of the same rotations list the same rows |
| BurrowsWheeler.TransformExists | src/contrib/bzip2/decompress.c:488-516 | every non-empty block has a transform |
| CountingRank.RanksArePermutation | src/contrib/bzip2/decompress.c:529-534 | the counting pass places all symbols at different positions |
| CountingRank.BackOrder | src/contrib/bzip2/decompress.c:560-564 | the permutation of the counting pass sorts by symbol and keeps equal symbols in order |
| InverseTransform.MakeCftab | src/contrib/bzip2/decompress.c:494-516 | the range and order checks accept exactly the counts that are in range and sum to at most nblock, and cftab holds their sums |
| InverseTransform.CountsPass | src/contrib/bzip2/decompress.c:494-516 | true symbol counts always pass, and their sums are the bucket starts |
| InverseTransform.BuildFast | src/contrib/bzip2/decompress.c:559-564 | the pass over tt leaves each word with its symbol in the low byte and the T^-1 row above it |
| InverseTransform.BuildSmall | src/contrib/bzip2/decompress.c:526-534 | the 20-bit vector holds the sorted position of every row |
| InverseTransform.SetLL | src/contrib/bzip2/bzlib_private.h:458-470 | stores one 20-bit entry in half-word and nibble and changes no other entry |
| InverseTransform.ReverseCycle | src/contrib/bzip2/decompress.c:536-545 | the pointer reversal ends, turns T into T^-1 along the cycle of origPtr and leaves every other entry alone |
| InverseTransform.IndexIntoF | src/contrib/bzip2/bzlib.c:687-698 | the binary search finds the bucket that holds the position, empty buckets included |
| InverseTransform.FirstColumn | src/contrib/bzip2/bzlib.c:687-698 | that bucket is the symbol of the row T^-1 leads to |
| BlockOutput.DState.GetFast | src/contrib/bzip2/bzlib_private.h:451-456 | a fast read yields the column symbol of the current row and moves to the next; it fails exactly beyond the block limit |
| BlockOutput.DState.GetSmall | src/contrib/bzip2/bzlib_private.h:475-479 | a small read yields the same symbol from the same row |
| BlockOutput.DState.StartOutput | src/contrib/bzip2/decompress.c:488-578 | a bad origPtr is refused; otherwise both modes owe the same expansion of the same chain, for every symbol vector and every origPtr < nblock |
| BlockOutput.DState.UnRleFast | src/contrib/bzip2/bzlib.c:591-681 | one call writes as much of what is owed as there is room for, updates the CRC over exactly that, and owes the rest; it reports corruption exactly when the block ends inside a run |
| BlockOutput.DState.UnRleSmall | src/contrib/bzip2/bzlib.c:761-801 | the same for the other loop; it finds corruption only with room to spare |
| BlockOutput.DState.StartRunFast | src/contrib/bzip2/bzlib.c:636-660 | starting a run from the local copies, with its jump into the middle of the loop, owes what was owed |
| BlockOutput.DState.StartRunSmall | src/contrib/bzip2/bzlib.c:775-800 | starting a run on the saved state owes what was owed |
| BlockOutput.DState.OutputStep | src/contrib/bzip2/bzlib.c:819-839 | a step hands over what fits; the block is reported done exactly when nothing is owed, and its CRC is compared with the CRC of everything it expands to |
| BlockOutput.Drain | src/contrib/bzip2/bzlib.c:817-840 | any sequence of output sizes gives a prefix of the one-shot expansion and its CRC |
| RunLength.ScheduleIndependent | src/contrib/bzip2/bzlib.c:589-681 | however the output space is cut into calls, the bytes are the same prefix |
| RunLength.CrcConcat | src/contrib/bzip2/bzlib_private.h:157-172 | the CRC of a concatenation is the CRC continued |
| RunLengthEncoder.EState.constructor | src/contrib/bzip2/bzlib.c:171-210 | a new compressor satisfies the conservation invariant |
| RunLengthEncoder.EState.AddPairToBlock | src/contrib/bzip2/bzlib.c:215-247 | the pending run becomes one more run of the block; inUse is exactly the set of bytes in the block, the CRC covers exactly what the block decodes to |
| RunLengthEncoder.EState.AddChar | src/contrib/bzip2/bzlib.c:260-284 | consuming a byte, by the fast track or not, keeps the conservation invariant: neighbours share a byte only after a run of 255 |
| RunLengthEncoder.EState.CopyInputUntilStop | src/contrib/bzip2/bzlib.c:288-329 | consumes a prefix of the input and stops only for a full block, no input, or the end of a flush |
| RunLengthEncoder.EState.FlushRL | src/contrib/bzip2/bzlib.c:252-256 | nothing is pending afterwards and nothing is lost |
| RunLengthEncoder.EState.PrepareNewBlock | src/contrib/bzip2/bzlib.c:117-126 | a fresh block with no byte marked keeps everything in earlier blocks |
| RunLengthEncoder.EState.CopyOutputUntilStop | src/contrib/bzip2/bzlib.c:334-356 | moves bytes until the space or the block runs out, one of each for one of the other |
| RunLengthEncoder.EState.HandleCompress | src/contrib/bzip2/bzlib.c:360-403 | ends; input consumed and left is conserved, finished blocks stay, and the call stops only when the output is full, the flush or end asked for is complete, or the input is used up |
| RunLengthEncoder.EState.AllHandedOver | src/contrib/bzip2/bzlib.c:369-386 | when a block has been handed over and no run is pending the blocks decode to all the input consumed |
| RunLengthEncoder.DecodeEncode | src/contrib/bzip2/bzlib.c:215-284 | the decompressor's expansion undoes the run code, whatever bytes follow it |
| BlockRoundTrip.DecompressBlock | src/contrib/bzip2/decompress.c:488-578 | in either mode and for any sequence of output sizes with room for it the decompressor writes the input the block was made from and arrives at its CRC |
| BlockRoundTrip.DecodeBlock | src/contrib/bzip2/decompress.c:349-578 | from bits to output, however input and output are cut into calls: if the bits are the coded transform of a finished block, its input comes out and the following bits are left |
| SymbolGroups.EnoughSelectors | src/contrib/bzip2/bzlib_private.h:122-125 | fifty symbols for each selector can be written, whichever codes are selected |
| SymbolLoop.EncodeShort | src/contrib/bzip2/decompress.c:375-486 | the coded column has no more symbols than the column has bytes |
| BlockRoundTrip.EveryBlockIsCodable | src/contrib/bzip2/bzlib_private.h:122-125 | every non-empty block has a coded transform for any codes, any covering order, and one selector for every fifty bytes and the end, so the 18002 selectors allowed suffice for 900000 bytes |
| WeightHeap.UpHeap | src/contrib/bzip2/huffman.c:33-42 | the loop restores the heap order and keeps the entries |
| WeightHeap.DownHeap | src/contrib/bzip2/huffman.c:44-59 | the loop restores the heap order from the top and keeps the entries |
| WeightHeap.TakeLeast | src/contrib/bzip2/huffman.c:101-102 | removes an entry of least weight |
| CodeLengths.MergeWeighs | src/contrib/bzip2/huffman.c:103-105 | weights add and depths grow by one without spilling into each other, and a node of depth d weighs at least the Fibonacci number of d + 2 |
| CodeLengths.MergeTwo | src/contrib/bzip2/huffman.c:100-110 | one merge keeps heap, weights and parents describing the same forest, grown by a least pair |
| CodeLengths.BuildTree | src/contrib/bzip2/huffman.c:82-112 | one round builds a single tree whose leaf depths use up the code space |
| CodeLengths.LayersOrder | src/contrib/bzip2/huffman.c:100-110 | in a finished tree a heavier symbol is never deeper |
| CodeLengths.CheapestIsOptimal | src/contrib/bzip2/huffman.c:100-110 | the tree that merging two lightest roots ends with has the least weighted sum of depths of all prefix-free codes |
| OptimalCode.MergeCosts | src/contrib/bzip2/huffman.c:100-110 | for any weights: a code for all of them costs at least the sum of the two lightest more than some code in which these are one |
| CodeLengths.Measure | src/contrib/bzip2/huffman.c:114-121 | the length of a symbol is the number of steps from its leaf to the root |
| CodeLengths.HalvedSum | src/contrib/bzip2/huffman.c:142-146 | halving lowers the total weight until every weight is one or two |
| CodeLengths.MakeCodeLengths | src/contrib/bzip2/huffman.c:63-148 | terminates for any frequencies in range, with all lengths in 1..maxLen and Kraft sum exactly one; for the weights after the h halvings made, no code has a smaller weighted sum of lengths (Huffman's theorem) and no heavier symbol is longer; before each halving an optimal code was too long |
| CodeLengths.SeventeenIsEnough | src/contrib/bzip2/huffman.c:125-140 | bounds from 12 on, so also the 17 that bzip2 passes, leave no deep tree over weights one and two for any alphabet of up to 258 symbols |
| CodeLengths.CompleteIsKraft | src/contrib/bzip2/huffman.c:63-148 | its lengths satisfy Kraft's inequality with equality, which is what the decoding tables ask for |
| SortedCodes.CanonicalCode | src/contrib/zlib-1.2/inftrees.c:75-86 | the interval of a symbol starts at the code that section 3.2.2 of RFC 1951 assigns to it |
| CodeSpace.NextIsIncrement | src/contrib/zlib-1.2/inftrees.c:241-250 | incrementing backwards is the increment of the reversed code |
| CodeSpace.HuffNext | src/contrib/zlib-1.2/inftrees.c:241-250 | the backwards increment leads from each code to the next one, also where the length changes |
| CodeSpace.CodeIsInterval | src/contrib/zlib-1.2/inftrees.c:232-239 | bits begin with a code exactly when their reversal lies in the code's interval |
| CodeSpace.PrefixFree | src/contrib/zlib-1.2/inftrees.c:75-86 | no code begins with an earlier one |
| CodeSpace.RevTwice | src/contrib/zlib-1.2/inftrees.c:83-86 | reversing the order of the bits twice gives the low bits back |
| InflateTable.CountLengths | src/contrib/zlib-1.2/inftrees.c:106-110 | count[len] is the number of symbols of that length |
| InflateTable.CheckSpace | src/contrib/zlib-1.2/inftrees.c:130-136 | the running balance is negative exactly when the lengths are over-subscribed, and otherwise the space left over |
| InflateTable.SortSymbols | src/contrib/zlib-1.2/inftrees.c:140-147 | work lists the symbols that occur by length, then by symbol |
| InflateTable.Replicate | src/contrib/zlib-1.2/inftrees.c:232-239 | fills exactly the entries of the current table whose low bits are the code |
| InflateTable.IncrementBackwards | src/contrib/zlib-1.2/inftrees.c:241-250 | the masking loop is the backwards increment |
| InflateTable.LookAhead | src/contrib/zlib-1.2/inftrees.c:268-276 | a new sub-table is large enough for every later code under its root entry, no larger than the longest code needs, and the smallest whose index space the codes left do not use up |
| InflateTable.OpenKeeps | src/contrib/zlib-1.2/inftrees.c:259-289 | linking a new sub-table disturbs no symbol entered before |
| InflateTable.NextTable | src/contrib/zlib-1.2/inftrees.c:252-289 | the symbol after s opens a sub-table exactly when it is the first too long for the root table with its root index; the space counted is then that of all sub-tables up to it, refused exactly beyond the limit |
| InflateTable.FillTable | src/contrib/zlib-1.2/inftrees.c:199-290 | every symbol is entered, through the root table or its sub-table, and nothing outside the space counted is written; it gives up exactly when the root table and all the sub-tables exceed ENOUGH_LENS or ENOUGH_DISTS |
| InflateTable.SpaceGrows | src/contrib/zlib-1.2/inftrees.c:277-282 | space once counted is never given back, so giving up at the first excess is giving up for the whole code |
| InflateTable.IncompleteIsOneBit | src/contrib/zlib-1.2/inftrees.c:137-138 | lengths that pass the checks and are incomplete are a single code of one bit |
| InflateTable.MarkRest | src/contrib/zlib-1.2/inftrees.c:292-300 | the entry left over is marked invalid exactly in that case |
| InflateTable.BuildAccepted | src/contrib/zlib-1.2/inftrees.c:140-305 | acceptable lengths: the table decodes them and ends after the space they need, unless that space exceeds the limit |
| InflateTable.Build | src/contrib/zlib-1.2/inftrees.c:32-306 | -1 exactly for over-subscribed or unacceptably incomplete lengths, the table then untouched; 1 exactly when root table and sub-tables together exceed the limit; with 0 every bit string looked up through root and sub-table gives the symbol whose reversed canonical code it begins with and drops that symbol's length, or the invalid marker if there is none, and the next free entry and root are the ones returned |
| InflateMachine.Inflate.NeedBits | src/contrib/zlib-1.2/inflate.c:499-503 | pulls bytes without changing the unread bits or their number, and fails exactly for want of input: fewer than n bits are left in all |
| InflateMachine.Inflate.DropBits | src/contrib/zlib-1.2/inflate.c:510-514 | drops exactly n unread bits |
| InflateMachine.Inflate.LookUp | src/contrib/zlib-1.2/inflate.c:1031-1048 | the two-level lookup with as few bits as are at hand is the lookup of all unread bits and drops no more than there are; it fails only when the code needs more bits than are left in hold and input, and then nothing has been dropped |
| InflateMachine.Inflate.StepLen | src/contrib/zlib-1.2/inflate.c:1030-1069 | a literal or length code moves to the state that will do what the symbol does, whatever input follows; it stops only when the bits left do not suffice |
| InflateMachine.Inflate.StepLenExt | src/contrib/zlib-1.2/inflate.c:1070-1079 | extra length bits: what the symbol will do is unchanged for every continuation of the input; it stops only when the bits left do not suffice |
| InflateMachine.Inflate.StepDist | src/contrib/zlib-1.2/inflate.c:1080-1106 | a distance code: what the symbol will do is unchanged for every continuation of the input; it stops only when the bits left do not suffice |
| InflateMachine.Inflate.StepDistExt | src/contrib/zlib-1.2/inflate.c:1107-1122 | extra distance bits: what the symbol will do is unchanged for every continuation of the input; it stops only when the bits left do not suffice |
| InflateMachine.Inflate.StepMatch | src/contrib/zlib-1.2/inflate.c:1123-1167 | each stretch of a match, from the window or the output, leaves the same match to finish |
| InflateMachine.Inflate.StepLit | src/contrib/zlib-1.2/inflate.c:1168-1173 | writes the literal or waits for space |
| InflateMachine.Inflate.OneSymbol | src/contrib/zlib-1.2/inflate.c:1021-1173 | wherever a call stops for want of input or space, the symbol in progress ends as it would have in one go, for every continuation of the input; a stop for input means that the bits left, counted, do not suffice for it |
| InflateMachine.Inflate.SeveralSymbols | src/contrib/zlib-1.2/inflate.c:1021-1173 | k symbols by the careful states are k applications of the symbol function to the counted bits, for every continuation of the input; with room for every symbol they stop only if the bits do not suffice for k |
| InflateSymbols.LookGood | src/contrib/zlib-1.2/inftrees.c:215-305 | a lookup in a built table drops 1 to 15 bits and ends at an entry the decoder knows how to treat |
| InflateSymbols.LookStable | src/contrib/zlib-1.2/inflate.c:1031-1048 | the result of a lookup depends only on the bits it drops |
| InflateSymbols.SymbolsExtend | src/contrib/zlib-1.2/inflate.c:1021-1173 | what the bits at hand decide, no further input changes: the same outcome with the further bits left |
| InflateSymbols.SymbolsBehind | src/contrib/zlib-1.2/inflate.c:1127-1150 | of the output so far the last 32768 bytes decide what any number of symbols do |
| InflateFast.FastLook | src/contrib/zlib-1.2/inffast.c:127-131 | dolen and dodist with at least 15 bits at hand find the entry that a lookup of all unread bits finds and drop exactly its bits, which are all there |
| InflateFast.FastSymbol | src/contrib/zlib-1.2/inffast.c:120-307 | one pass decodes the same symbol as the careful states and leaves the same number of unread bits, from at most 6 bytes of input into at most 258 bytes of output |
| InflateFast.FastDistance | src/contrib/zlib-1.2/inffast.c:164-184 | with its byte-by-byte refills the sixth byte is never passed |
| InflateFast.Loop | src/contrib/zlib-1.2/inffast.c:118-307 | the loop is a number of symbols on the counted bits, and ends for space, input, end of block or a bad symbol |
| InflateFast.Run | src/contrib/zlib-1.2/inffast.c:67-324 | the whole fast decoder is that many applications of the symbol function: same output, same unread bits and same number of them, so the same bit position; fewer than 8 bits kept, and room before every symbol |
| InflateCalls.FastIsCareful | src/contrib/zlib-1.2/inffast.c:24-66 | from equal states the careful states, asked for the symbols that the fast decoder began, do not stop and end in the same mode, output, place in the input, hold and bits |
| InflateCalls.Decode | src/contrib/zlib-1.2/inflate.c:1021-1173 | one call, fast and careful passes mixed as inflate mixes them: whatever input follows, done symbols have been decoded and the one in progress ends as in one go; it stops only for a bit count that does not suffice, or for space |
| InflateCalls.Feed | src/contrib/zlib-1.2/inflate.c:1021-1173 | new input and space between two calls do not change what will be decoded |
| InflateCalls.InCalls | src/contrib/zlib-1.2/inflate.c:1021-1173 | any sequence of calls, with any cuts of input and output space, decodes what one call with all the input would |
| InflateCalls.NextCall | src/contrib/zlib-1.2/inflate.c:1230-1237 | a call that goes on in another output buffer, with the window in between, loses nothing: with a window of 32K what the symbol in progress will do is the same behind the output forgotten |
| DeflateFormat.LengthCovered | src/contrib/zlib-1.2/inftrees.c:60-65 | every length from 3 to 258 has a length code whose base and extra bits reach it |
| DeflateFormat.DistanceCovered | src/contrib/zlib-1.2/inftrees.c:66-74 | every distance from 1 to 32768 has a distance code whose base and extra bits reach it |
| DeflateFormat.SymbolFound | src/contrib/zlib-1.2/inftrees.c:75-86 | a canonical code written first bit first is found by a lookup in any table built from its lengths, and exactly its bits are dropped |
| DeflateFormat.TokenRead | src/contrib/zlib-1.2/inflate.c:1021-1173 | a token written with its codes and extra bits (section 3.2.5 of RFC 1951) is decoded as what it stands for, and the bits after it are left |
| DeflateFormat.TokensRead | src/contrib/zlib-1.2/inflate.c:1021-1173 | any tokens written with any codes that cover them are decoded by as many symbols, behind the output so far, as the bytes they expand to |
| DeflateRoundTrip.BlockInflates | src/contrib/zlib-1.2/deflate.c:1538-1547 | the tokens of each block that deflate flushes, written with any codes that cover them and followed by the end-of-block code, inflate to the output of the blocks up to it, the last to the whole input |
| DeflateRoundTrip.FullSuffices | src/contrib/zlib-1.2/deflate.h:323-339 | deflate only makes tokens for which codes with a code word for each of 286 and 30 symbols suffice |
| InflateBits.GiveBack | src/contrib/zlib-1.2/inffast.c:309-313 | whole bytes left in hold go back to the input without moving the bit position |
| InflateBits.SamePlace | src/contrib/zlib-1.2/inffast.c:309-313 | with less than a byte in hold, equal unread bits and bit counts mean equal hold, bits and place in the input |
| MatchCopy.MatchStep | src/contrib/zlib-1.2/inflate.c:1123-1167 | one pass of MATCH copies bytes that repeat those offset back; it is refused exactly when the distance is beyond window and output |
| MatchCopy.MatchAll | src/contrib/zlib-1.2/inflate.c:1123-1167 | repeated passes are the byte-by-byte distance copy of the output so far |
| MatchCopy.CopyFast | src/contrib/zlib-1.2/inffast.c:186-281 | all three window cases, the overlapped copy and the by-threes loops are the same distance copy |
| Window.InflateWindow.Update | src/contrib/zlib-1.2/inflate.c:379-427 | after any sequence of calls the circular buffer, read from wnext, is the last min(wsize, total) bytes output; it fails only for want of memory |
| Window.InflateWindow.CopyIn | src/contrib/zlib-1.2/inflate.c:404-425 | the same for one copy into the buffer, with or without wrapping around |
| Window.SplicedInOrder | src/contrib/zlib-1.2/inflate.c:411-424 | writing around the end keeps the oldest-first order |
| Window.InflateWindow.GetDictionary | src/contrib/zlib-1.2/inflate.c:1268-1289 | returns those bytes in order and writes nothing else |
| Lz77.RepeatsIsCopy | src/contrib/zlib-1.2/inflate.c:1163-1165 | repeating what is dist places back determines the result, overlapping copies included |
| SyncSearch.Search | src/contrib/zlib-1.2/inflate.c:1354-1375 | have is the longest prefix of 00 00 ff ff that ends all bytes read, and the search stops right after the first occurrence |
| SyncSearch.StepIsLongest | src/contrib/zlib-1.2/inflate.c:1365-1370 | one step keeps that longest prefix, whatever was read before |
| SyncSearch.SearchInPieces | src/contrib/zlib-1.2/inflate.c:1343-1353 | cutting the input into calls changes nothing |
| Adler32.Adler32 | src/contrib/zlib-1.2/adler32.c:65-133 | every path, from any reduced start, gives the per-byte definition of section 8.2 of RFC 1950, in 32 bits |
| Adler32.LongBlocks | src/contrib/zlib-1.2/adler32.c:104-114 | blocks of NMAX bytes with one reduction each |
| Adler32.LastBytes | src/contrib/zlib-1.2/adler32.c:116-129 | the rest with one reduction |
| Adler32.FewBytes | src/contrib/zlib-1.2/adler32.c:92-102 | fewer than 16 bytes with a subtraction and one reduction |
| Adler32.Do16 | src/contrib/zlib-1.2/adler32.c:18-22 | sixteen unrolled steps keep the exact unreduced sums without overflow |
| Adler32.NmaxIsLargest | src/contrib/zlib-1.2/adler32.c:15-16 | 5552 is the largest number of bytes for which the sums always fit in 32 bits |
| Adler32.BoundReached | src/contrib/zlib-1.2/adler32.c:15-16 | the bound is attained, so a larger NMAX would overflow |
| Adler32.RawIsSum | src/contrib/zlib-1.2/adler32.c:104-114 | deferring the modulo does not change the result |
| Adler32.SumsAppend | src/contrib/zlib-1.2/adler32.c:104-129 | the sums of a concatenation are the sums continued |
| Adler32.Mod | src/contrib/zlib-1.2/adler32.c:40-44 | the shifting MOD is the remainder by 65521 for every 32-bit value |
| Adler32.Mod28 | src/contrib/zlib-1.2/adler32.c:35-39 | MOD28 is the remainder below 2^28 |
| Adler32.Mod63 | src/contrib/zlib-1.2/adler32.c:45-57 | MOD63 is the remainder for every length below 2^63 |
| Adler32.Combine | src/contrib/zlib-1.2/adler32.c:136-162 | computes the combination in 32 bits, the result for negative lengths included |
| Adler32.CombineIsConcat | src/contrib/zlib-1.2/adler32.c:136-162 | the combination of two checksums is the checksum of the concatenation |
| RollingHash.UpdateForgets | src/contrib/zlib-1.2/deflate.c:161-167 | after three updates the hash depends on the last three bytes only, whatever it was before |
| RollingHash.ThirdByte | src/contrib/zlib-1.2/deflate.c:1247-1252 | with at least eight hash bits, equal hashes and two equal bytes leave no choice for the third |
| HashChains.InsertKeeps | src/contrib/zlib-1.2/deflate.c:186-189 | inserting a string keeps every link sound, and no recent string loses the link that leads to it, although the slot of an older one is overwritten |
| HashChains.SlideKeeps | src/contrib/zlib-1.2/deflate.c:1432-1449 | sliding head and prev in place keeps every link sound and every recent string on its chain |
| HashChains.Follow | src/contrib/zlib-1.2/deflate.c:1284-1285 | a link followed from a string in reach leads nowhere, or to an older string of the same hash that is in reach or beyond it |
| HashChains.Reached | src/contrib/zlib-1.2/deflate.c:1284-1285 | from the latest string of a hash the links reach every string of that hash inserted within the last w_size positions, and pass through none older on the way |
| DeflateState.State.constructor | src/contrib/zlib-1.2/deflate.c:1106-1132 | an empty state satisfies the invariant whatever window and prev hold |
| DeflateState.State.InsertString | src/contrib/zlib-1.2/deflate.c:186-189 | the head before is returned, the string heads its chain, positions fit in 16 bits, and the hash is ready for the next string |
| DeflateState.State.Slide | src/contrib/zlib-1.2/deflate.c:1419-1451 | absolute positions, data, chains and the start of the block are what they were; match_start may pass below zero |
| DeflateState.State.ReadBuf | src/contrib/zlib-1.2/deflate.c:1076-1101 | appends a prefix of the input, as long as there is room |
| DeflateState.State.RestartHash | src/contrib/zlib-1.2/deflate.c:1470-1489 | the hash is ready again and strings left out at the end of earlier input are inserted |
| DeflateState.State.ClearAhead | src/contrib/zlib-1.2/deflate.c:1503-1528 | zeroes the bytes from the end of the data, or from the mark before, up to the new mark, which covers WIN_INIT bytes or the window; no byte of the data or below the old mark changes |
| DeflateState.State.FillWindow | src/contrib/zlib-1.2/deflate.c:1390-1532 | one pass ends with enough lookahead or no input, and moves no absolute position |
| DeflateState.State.TallyLit | src/contrib/zlib-1.2/deflate.h:323-329 | appends a literal that stands for the next byte; flush is set exactly when the buffer is full, so it never overflows |
| DeflateState.State.TallyDist | src/contrib/zlib-1.2/deflate.h:330-339 | appends a match for the next bytes; distance and length survive the narrow fields they are stored in |
| DeflateState.State.FlushBlockOnly | src/contrib/zlib-1.2/deflate.c:1538-1547 | the block holds the tokens since the last one, stored_len is the length they expand to, and the bytes passed are theirs if the window still has them all |
| DeflateState.State.FlushIf | src/contrib/zlib-1.2/deflate.c:1549-1553 | the buffer has room again |
| DeflateState.BlocksOkMore | src/contrib/zlib-1.2/deflate.c:1538-1547 | blocks already flushed stay right as more input arrives |
| LongestMatch.MatchLength | src/contrib/zlib-1.2/deflate.c:1253-1269 | the length of the common prefix, up to 258 |
| LongestMatch.ThreeAgree | src/contrib/zlib-1.2/deflate.c:1242-1254 | the third byte, never compared, agrees |
| LongestMatch.Try | src/contrib/zlib-1.2/deflate.c:1242-1269 | the quick checks reject only strings that cannot beat the best match |
| LongestMatch.Longest | src/contrib/zlib-1.2/deflate.c:1148-1289 | the longest match among the strings visited; unless the budget is used up or the match is good enough, no inserted string closer than MAX_DIST has a longer one; a result above prev_length is a true match, at most lookahead long and at most MAX_DIST back |
| LongestMatch.NoneLeftOut | src/contrib/zlib-1.2/deflate.c:1284-1285 | where the chain ends or leaves the reach of a match, no inserted string closer than MAX_DIST beats the best match: one with three bytes in common is on the chain |
| LongestMatch.FollowChain | src/contrib/zlib-1.2/deflate.c:1189-1285 | the loop ends with a best match that is unbeaten in reach, or good enough, or with its budget used up |
| LongestMatch.Improve | src/contrib/zlib-1.2/deflate.c:1273-1283 | keeps the match with the current string exactly if it is longer than all before |
| DeflateSlow.InsertCurrent | src/contrib/zlib-1.2/deflate.c:1752-1758 | a head in reach is an older string with the same hash, from which the chain of that hash is followed |
| DeflateSlow.FindMatch | src/contrib/zlib-1.2/deflate.c:1760-1786 | keeps the earlier match, and searches and discards exactly under the conditions given |
| DeflateSlow.EmitMatch | src/contrib/zlib-1.2/deflate.c:1790-1813 | tallies the match held back and passes over it, all its strings inserted as far as there is input |
| DeflateSlow.EmitLiteral | src/contrib/zlib-1.2/deflate.c:1817-1828 | tallies the byte held back, flushing a full block at the right position |
| DeflateSlow.Step | src/contrib/zlib-1.2/deflate.c:1744-1837 | a match found is taken whole or gives way to a longer one starting one byte later; the tokens stand for the input up to strstart minus match_available |
| DeflateSlow.Refill | src/contrib/zlib-1.2/deflate.c:1744-1750 | refilling, with or without a slide, keeps the tokens and the match held back |
| DeflateSlow.Deflate | src/contrib/zlib-1.2/deflate.c:1730-1853 | at every return the tokens expand to the input up to strstart minus match_available; when it is done every byte of the input is in a flushed block, across any number of slides |
| DeflateEager.FindFast | src/contrib/zlib-1.2/deflate.c:1660-1667 | searches exactly when the head is in reach |
| DeflateEager.PassMatch | src/contrib/zlib-1.2/deflate.c:1674-1704 | passes over the match with its strings inserted, or starts the hash afresh behind it |
| DeflateEager.FastStep | src/contrib/zlib-1.2/deflate.c:1641-1712 | one position, a whole match or a literal, keeps the tokens equal to the input up to strstart |
| DeflateEager.DeflateFast | src/contrib/zlib-1.2/deflate.c:1628-1722 | the same loss-free result for the fast matcher |
| DeflateEager.RunLength | src/contrib/zlib-1.2/deflate.c:1882-1900 | the length of the run of the byte before, up to 258 and the lookahead, or 0 if it is under three |
| DeflateEager.RunIsMatch | src/contrib/zlib-1.2/deflate.c:1902-1910 | such a run is a true match at distance one |
| DeflateEager.DeflateRle | src/contrib/zlib-1.2/deflate.c:1861-1928 | the same loss-free result for the run matcher |
| H2Lookup.Volume.Lookup | src/lib/libstand/hammer2.c:270-413 | on a finite tree of nested disjoint ranges: the least-key leaf that overlaps the range or none if there is none, an error only if a block cannot be read, embedded data only for such an inode; it terminates, and unless a read failed the buffer holds what it is said to hold; after a failed one it holds what that read left, and for a base with a block of its own it is said to hold nothing exactly if that was so before and this block is the one that could not be read |
| H2Lookup.Volume.Scan | src/lib/libstand/hammer2.c:312-365 | finds the lowest reference that overlaps the range, in any order of the array, reloading the shared buffer when a recursion has overwritten it; a failed read leaves the buffer with that read's bytes and its old name |
| H2Lookup.Volume.Load | src/lib/libstand/hammer2.c:320-327 | afterwards the buffer is the block of the base, unless the read fails; then the buffer holds what the read left and the name of what it held before |
| H2Lookup.Volume.KeptExactly | src/lib/libstand/hammer2.c:318-327 | after a failed read the claim about the buffer is right, whatever was left in it, exactly if it claims nothing |
| H2Lookup.Volume.FailedReadStays | src/lib/libstand/hammer2.c:318-327 | a run that ends with the wrong block: a is loaded, the read of b fails and overwrites it, and loading a again does not read |
| H2Lookup.Volume.Fetch | src/lib/libstand/hammer2.c:394-410 | the whole leaf lies in the buffer at the offset returned, and the buffer is no longer taken for a base's block; a failed read leaves its bytes under the old name |
| H2Lookup.Volume.Forget | src/lib/libstand/hammer2.c:285-288 | whatever the buffer holds, also after a failed read, it is no longer taken for a base's block |
| H2Lookup.Volume.WithinBuffer | src/lib/libstand/hammer2.c:399-408 | an aligned block never crosses the end of the device buffer read for it |
| H2Lookup.Volume.LeafPlace | src/lib/libstand/hammer2.c:367-392 | a leaf in range is under the lowest reference or beyond it |
| H2Lookup.Volume.NothingThere | src/lib/libstand/hammer2.c:385-391 | when the lowest subtree is empty of matches, raising key_beg past it loses no leaf |
| H2Lookup.Volume.PastSubtree | src/lib/libstand/hammer2.c:385-391 | raising key_beg past an empty subtree keeps every leaf that overlaps the range asked for, and past the end there is none |

## Left out

- QDivRem.QDivRem: division by zero is an outcome of its own, because the deliberate trap of qdivrem.c:91-99 has no value; a null remainder pointer is not modelled.
- Randomised bzip2 blocks (bzlib.c:513-587 and 710-757) and the table of random numbers.
- bzip2 headers, the symbol map, selectors and the reading of code lengths (decompress.c:186-329): the decoder is given tables built from any lengths, any selectors and any order of the alphabet.
- SymbolLoop.ReadSymbols: the input of later calls is at hand as pieces, so that a return for want of input and the way back into the loop through saved locals (decompress.c:139-193, 613-638) are the step to the next piece; that every local is saved and restored is not modelled field by field.
- Block sorting and compress.c are not part of this model: the transform is defined by sorted rotations and the coder of runs and indices by a function.
- RunLengthEncoder.EState.HandleCompress: the bytes of the compressed block and the progress flags returned are not modelled; the block handed to the sorter and an arbitrary number of output bytes are.
- CodeLengths.MakeCodeLengths: the frequencies, zero counting as one, must sum to less than 2^23, so that the packed weights fit in 32 bits; blocks have at most 900000 symbols.
- InflateTable.Build: the space constants of inftrees.h come from an exhaustive search over codes; that no complete code exceeds them is not proved, only that 1 is returned exactly when one does.
- The other states of inflate, its messages and its marks for inflateMark; the state that accepts distances too far back (sane = 0); INFLATE_STRICT and INFLATE_ALLOW_INVALID_DISTANCE_TOOFAR_ARRR.
- Window.InflateWindow.Update: whether memory can be had is a parameter.
- Window.InflateWindow.GetDictionary: always has a place to put the bytes; null pointers for the dictionary or its length are not modelled.
- The part of inflateSync that empties the bit buffer before the search.
- trees.c is not part of this model: tallying appends a token, flushing records a block, and what flush_pending leaves of the output space is arbitrary. DeflateRoundTrip takes the body of a block as RFC 1951 writes it, without block headers, for any codes that cover its tokens.
- DeflateState.State.ClearAhead: which bytes of the window were ever written is not tracked; the upper half that a slide copies down can contain bytes past high_water.
- DeflateState.State.FillWindow: the loop is written without its way back, since one pass is proved to read enough or to empty the input; the branch for 16-bit integers and the checksum update of read_buf are left out.
- DeflateState.State.constructor: sizes and the four tuning values are parameters of a whole run, with the chain length at least four as in the configuration table; changes by deflateParams and deflateTune, preset dictionaries, deflate_stored and deflate_huff are left out.
- The variants FASTEST, UNALIGNED_OK and ASMV.
- Adler32.Adler32: a null buffer of length one, which the code would read from, is excluded.
- H2Lookup.Volume.Lookup: called while the buffer is what it is said to be, so not after a failed read without a lookup without a base in between. A failed read may leave anything, but a read that succeeds delivers the whole block: the pieces of 16K that h2read makes under BOOT2, whose last one alone decides the result, are not modelled. The tree has disjoint ranges nested in those of their parents, known types, key sizes below 64 bits and aligned blocks; counts and sizes from headers that are not part of this model are parameters, and a block size is not cut off at the width of int.
- Counters of total input and output, allocation, and the wrappers around files and devices.
- Long functions and inlined macros are split into several methods here; jumps into loops are written as flags or as a first pass.
