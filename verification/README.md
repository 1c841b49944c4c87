# Verification of the kernel's algorithms

This project models the parts of the Xeros kernel source whose correctness
depends on intricate state, in Dafny 4.11, and proves what they promise. To
verify it, use `dafny verify dfyconfig.toml`.

The C functions that work by changing memory are Dafny methods and classes that
change arrays and fields in the same steps; each is proved against a
specification function or a state predicate, and lemmas about those state what
the code is for. Unsigned and signed 32-bit arithmetic is written out where it
can wrap.

## What is modelled

* **The DEFLATE decoder** (`boot/zBoot/inflate.c`, with window flush and CRC-32
  of `boot/zBoot/misc.c`). `Canonical` and `InflateSpec` give the reference:
  canonical Huffman codes and blocks as in RFC 1951, on a flat list of bits and
  an unbounded output. `HuftTables`, `HuftSteps`, `HuftLoop`, `HuftMeaning`,
  `HuftCounts` and `Huffman` build the linked tables the way `huft_build` does
  and prove what they mean, down to how often each slot is stored;
  `HuffmanDecode`, `Decoder` and `InflateBlocks` decode with them. `BitReader` is
  the bit buffer, `Window` the 32K ring, `Crc` and `CrcNumbers` the table-driven
  checksum of RFC 1952. `Deflate` writes streams as the RFC tells a compressor to,
  with no table of the decoder's, and `RoundTrip` proves that they are read back.
* **qsort** (`lib/libxc/qsort.c`): `Qsort`.
* **The kernel heap** (`c/mem.c`): `FreeList` and `FreeListSteps` treat the free
  list as a value, `Heap` the headers in memory.
* **Printing and scanning numbers** (`doprnt.c`, `atoi.c`, `doscan.c` of
  `lib/libxc`): `Numerals`, `Doprnt`, `Scanning`, `Atoi`, `Doscan`, `PrintScan`.
* **Block copy** (`lib/libxc/blkcopy.s`): `Blkcopy`.
* **Signal frames** (`c/signal.c`, `sys_sigreturn` of `c/disp.c`, the return to a
  process in `c/ctsw.c`): `Signal`.

## Where the code differs from what is expected of it

* `huft_build`, line 264, compares the place in the value table with the number
  of symbols, although only symbols with a code were put there. The spare code
  words of an incomplete code with unused symbols are therefore filled from
  unset memory (`Undef` in the model) until that number is reached; `SpareEntry`
  is the exact condition, `SparesExact` says when it happens at all and
  `SpareUnset` gives two lengths for which it does. All lengths zero give no
  table, and decoding with it reads through a null pointer, which the reference
  calls undefined.
* `huft_build`, line 229, increments the index size before comparing it with the
  limit, so a table whose first code has exactly `l` bits gets `l + 1` index bits
  when longer codes follow. For the root this only doubles the table
  (`RootSize`; the fixed literal table is such a case): its upper half is never
  looked up and is the place no link reaches (`UpperHalf`).
* Below the root, a prefix with only codes of `l` bits or more, not all of them
  `l` bits, gets an index wider than the `l` bits a link can fill (`TooWide`),
  and part of that table is never written. `Balanced` says no such prefix exists.
  Every slot that can be looked up is stored exactly once if and only if the code
  is balanced (`HuftBuild`, `StoredOnce`); no slot is ever stored twice.
  Otherwise the strings that `LossExact` describes lead to unwritten memory,
  although canonical decoding decodes them if the code is complete
  (`CompleteDecodes`), as with the lengths of `Unbalanced`. The trees the decoder
  itself builds are all balanced.
* `inflate_dynamic` stops the machine on an incomplete literal or distance tree
  (outcome `Stopped`), through `error`.
* `kmalloc` wraps its size above 0xFFFFFFE0 (`NeedExact`, `GrantExact`); a block
  granted so is marked though it stays free, and freeing it ends the free list
  there (`FreeWrapped`). `kmeminit` runs 16 bytes into the hole unless `freemem`
  is a multiple of 16 (`LowExact`, `LowFails`), and leaves out bytes up to
  `maxaddr` or takes some past it unless `maxaddr` ends a 16-byte unit
  (`HighExact`, `HighFails`).
* `%-0` fields fill with zeros on the right, which changes the number read back
  (`DecimalReadsBack`, `TrailingZeroReads`, `PrintThenScan`).
* `blkcopy` chooses its direction by a signed comparison of addresses
  (`OutcomeExact`, `AcrossHalf`).
* `sys_sigreturn` unmasks the saved level itself, so a mask that was not empty
  comes back one signal short (`DeliverAndReturn`, `OneSignal`).

## Conventions

Registers of the CRC and the bits of the stream are sequences of booleans, the
first bit being the least significant one of the CRC register and the first to
leave the stream. `Lsb` and `Msb` read a bit string as a number. Memory that was
never written is a value of its own (`Undef`, `Unset`), so that a read of it can
be told from a read of data. Ghost parameters (`Plan`, `Forest`) name what the
tables hold.

## Model

| member | source | states |
|---|---|---|
| Canonical.PrefixFree | boot/zBoot/inflate.c:201-213 | canonical code words never begin one another, so a bit string starts with at most one code word |
| Canonical.DecodeFinds | boot/zBoot/inflate.c:353-362 | bit-by-bit canonical decoding of a string that starts with a symbol's code word gives that symbol and its length |
| Canonical.DecodeFails | boot/zBoot/inflate.c:353-362 | it gives no symbol exactly when the string starts with no code word (the other direction) |
| HuftCounts.CountLengths | boot/zBoot/inflate.c:135-140 | c[] holds how often each length occurs |
| HuftCounts.FindBounds | boot/zBoot/inflate.c:150-164 | j and g are the shortest and longest length used and m is clamped between them |
| HuftCounts.KraftMeaning | boot/zBoot/inflate.c:167-174 | the running count of free code words is negative, zero or positive as the Kraft sum of the lengths is above, equal to or below 1 |
| HuftCounts.FillOut | boot/zBoot/inflate.c:167-174 | the result is negative exactly when the code is over-full, and otherwise adding the spare words to c[g] makes the code full: its Kraft sum is exactly 1 |
| HuftCounts.Offsets | boot/zBoot/inflate.c:177-183 | x[] holds where the symbols of each length start in v[] |
| HuftCounts.SortValues | boot/zBoot/inflate.c:186-192 | v[] lists the symbols by length, and by symbol within a length; places beyond the coded symbols stay unset |
| HuftLoop.BackwardsIncrement | boot/zBoot/inflate.c:283-286 | from the bit-reversed code i the next one: the same word counted up by one, or 0 after the last word of all ones |
| HuftLoop.TableBits | boot/zBoot/inflate.c:223-235 | the index size found: the smallest, from the first code's own length on, that the codes below the prefix fill, at most l; wider than l exactly when codes of w + l bits or fewer leave room in a prefix whose next code has w + l bits or more, and never past the longest code by more than one bit |
| HuftLoop.FillTable | boot/zBoot/inflate.c:278-281 | exactly the slots congruent to the code modulo the step get the entry, the others keep theirs |
| HuftLoop.BackUp | boot/zBoot/inflate.c:288-293 | the stack is popped exactly to the table whose prefix begins the next code word |
| HuftLoop.PlaceWord | boot/zBoot/inflate.c:212-294 | one code word is entered: every slot up to the next word's position is settled and i is the next canonical word reversed, or 0 at the end; all indexes are at most l bits wide afterwards exactly if they were before and no prefix of this word is one that TooWide describes |
| HuftLoop.BuildTables | boot/zBoot/inflate.c:196-297 | all code words are entered and every slot of every table is settled: stored once with the entry or link that belongs there, or never; all indexes are at most l bits wide exactly when the counts are balanced; the root has the size RootSize says |
| HuftLoop.RootWidth | boot/zBoot/inflate.c:216-242 | the root is indexed by one bit too many exactly when the shortest code has l bits and longer ones follow (line 229 increments j before it compares) |
| Huffman.HuftBuild | boot/zBoot/inflate.c:99-303 | returns 2 exactly when the Kraft sum exceeds 1, 1 exactly when it is below 1 and the longest length is not 1; m is clamped; the root has 2^m slots (2^(m+1) in the case of RootWidth); all-zero lengths give a null table; no slot is ever stored twice; every slot a look-up can reach is stored exactly once, and holds its code word's entry or link, exactly when the counts are balanced; a complete code's tables lead every string of 16 bits or more to a written entry exactly then; which strings they lose otherwise is LossExact |
| HuftSteps.FillsOnce | boot/zBoot/inflate.c:278-281 | two code words that fill one slot of a table are the same word |
| HuftSteps.PushClear | boot/zBoot/inflate.c:249-256 | no code word fills the slot of a link to a deeper table |
| HuftSteps.PushSettled | boot/zBoot/inflate.c:237-259 | making and linking a table keeps every slot settled: stored once with what belongs there, or never |
| HuftSteps.FillSettled | boot/zBoot/inflate.c:278-281 | so does storing a code word, whose slots are all in the table on top of the stack and were free |
| HuftMeaning.SlotCases | boot/zBoot/inflate.c:353-362 | what the slot picked by the next bits holds: the entry of the code word there, stored once; the link to the table for the next l bits, stored once; or nothing, never stored, if the index is over-wide and has a bit beyond the first l |
| HuftMeaning.StoredOnce | boot/zBoot/inflate.c:216-293 | no slot is stored twice, and every slot a look-up can reach is stored exactly once if and only if no index is wider than l |
| HuftMeaning.UpperHalf | boot/zBoot/inflate.c:229-259 | no link reaches the upper half of a doubled root: a slot there is stored exactly when the slot 2^l below holds a code word, and repeats it |
| HuftMeaning.LossExact | boot/zBoot/inflate.c:353-362 | the decoder reads unwritten memory on exactly these strings: those whose code word is a spare one without an entry, and those that at some over-wide table on the way to their code word have a 1 among the index bits beyond the first l |
| Huffman.CompleteDecodes | boot/zBoot/inflate.c:353-362 | canonical decoding of a complete code finds a symbol in every string of 16 bits or more, so also in those that torn tables lose |
| Huffman.Unbalanced | boot/zBoot/inflate.c:223-235 | a complete code that is not balanced: lengths 1, 3, 3, 3, 3 with one index bit |
| Huffman.PlanHolds | boot/zBoot/inflate.c:261-275 | the entries stored are those of the symbols in canonical order; a spare code word gets e = 99 exactly when its index is at least n, and unset memory otherwise (line 264 compares with n, not with the number of coded symbols) |
| Huffman.ShortIsBalanced | boot/zBoot/inflate.c:216-259 | codes of at most 2l bits never lead to an index wider than l |
| Huffman.FewIsBalanced | boot/zBoot/inflate.c:216-259 | fewer than 2^l codes never lead to an index wider than l |
| HuffmanDecode.CodedSlot | boot/zBoot/inflate.c:261-281 | a slot reached through the tables that holds a code word yields the symbol and length canonical decoding yields |
| HuffmanDecode.SpareExact | boot/zBoot/inflate.c:261-281 | a slot reached through the tables holds a spare code word exactly where canonical decoding finds no symbol; it is marked e = 99 or unset by its index |
| HuffmanDecode.SpareUnset | boot/zBoot/inflate.c:264 | distance lengths 1, 0: the pattern 1 is no code word and its entry is unset memory |
| Huffman.SparesExact | boot/zBoot/inflate.c:261-275 | every spare code word is marked e = 99 exactly when every symbol has a code or no word is spare |
| Decoder.Inflater.DecodeSymbol | boot/zBoot/inflate.c:353-362 | following links through the tables returns the symbol that bit-by-bit canonical decoding returns and consumes the same bits; it lands on e = 99 where that finds no symbol or one whose operation is 99 (286 and 287), and on unset memory only where the reference is undefined |
| FixedTrees.FixedLiteralTree | boot/zBoot/inflate.c:505-516 | the fixed literal lengths form a complete code |
| FixedTrees.FixedDistanceTree | boot/zBoot/inflate.c:519-522 | the fixed distance lengths form an incomplete code without zero lengths |
| FixedTrees.LiteralBalanced | boot/zBoot/inflate.c:675-684 | complete literal trees of at most 15 bits with 9 index bits are balanced |
| FixedTrees.DistanceBalanced | boot/zBoot/inflate.c:685-701 | complete trees of at most 30 distances with 6 index bits are balanced |
| BitReader.BitReader.NeedBits | boot/zBoot/inflate.c:84 | the buffer holds fewer than 2^k, k is at most 23, buffer and unread bytes together stay the same bit stream, and the low bits are its next bits; it fails only when the stream has fewer bits left |
| BitReader.BitReader.DumpBits | boot/zBoot/inflate.c:85 | exactly the next n bits of the stream are consumed |
| BitReader.BitReader.UndoLookahead | boot/zBoot/inflate.c:793-799 | inptr ends at the first byte of which no bit was consumed |
| Window.ByteBack | boot/zBoot/inflate.c:400-411 | the masked index (w - dist) & (WSIZE - 1) finds the byte dist back in the unbounded output, across flushes and wraps, for every dist up to the window size |
| Window.CopySplit | boot/zBoot/inflate.c:398-418 | copying in pieces is copying at once |
| Window.CopyBlock | boot/zBoot/inflate.c:402-407 | a block copy is right when its source lies in what has been written |
| Window.SlidingWindow.NextChunk | boot/zBoot/inflate.c:400-417 | a chunk has at least one byte and wraps neither source nor destination; the output grows by exactly those bytes |
| Window.SlidingWindow.CopyMatch | boot/zBoot/inflate.c:398-418 | flushed output plus window equals the old output with out[len - dist] appended length times, including self-overlap, wraparound and dist = 32768 |
| Window.SlidingWindow.Memcpy | boot/zBoot/misc.c:172-179 | the forward byte loop copies the source, for any overlap: where the destination starts inside the source, the bytes before it repeat |
| Window.SlidingWindow.FlushWindow | boot/zBoot/misc.c:261-271 | the window's bytes move to the output and the CRC register has seen exactly the output |
| Decoder.Inflater.InflateCodes | boot/zBoot/inflate.c:328-430 | decoding with two trees agrees with the reference decoder on output, result code and consumed bits |
| InflateBlocks.InflateStored | boot/zBoot/inflate.c:434-486 | a stored block agrees with section 3.2.4 of RFC 1951, with error 1 on a wrong complement |
| InflateBlocks.InflateFixed | boot/zBoot/inflate.c:490-540 | a fixed block agrees with section 3.2.6 |
| InflateBlocks.ReadLengthCode | boot/zBoot/inflate.c:590-601 | the code length code's lengths in their permuted order, zeros behind |
| InflateBlocks.ReadRun | boot/zBoot/inflate.c:626-659 | a run is stored unless it would go past nl + nd; the call fails with 1 exactly on such a run, and runs out of input exactly when its bits are missing |
| InflateBlocks.ReadTreeLengths | boot/zBoot/inflate.c:616-660 | exactly nl + nd lengths, equal to the recursive expansion of symbols 0-18 of section 3.2.7 with previous length 0 at the start; nothing past them is written |
| InflateBlocks.BuildDynamic | boot/zBoot/inflate.c:675-702 | over-full trees end with 2, incomplete ones halt, otherwise both trees are built right |
| InflateBlocks.InflateDynamic | boot/zBoot/inflate.c:544-718 | a dynamic block agrees with section 3.2.7 and the source's limits |
| InflateBlocks.NextBlock | boot/zBoot/inflate.c:722-765 | one block of the stream, or how the call ends |
| InflateBlocks.Inflate | boot/zBoot/inflate.c:769-810 | whenever the reference is defined: success means the output is the reference output, the register is its CRC-32 and inptr is at the first untouched byte; every failure is the reference's |
| RoundTrip.SymbolReads | boot/zBoot/inflate.c:353-362 | a symbol's code word, most significant bit first, is read as that symbol whatever follows |
| RoundTrip.LengthsTile | boot/zBoot/inflate.c:51-57 | each length symbol starts where the one before ends: CPLENS begins at 3 and grows by 2^CPLEXT, four symbols to each number of extra bits, up to 258 without any |
| RoundTrip.LengthCoded | boot/zBoot/inflate.c:378-381 | each of the symbols 257 to 284 with each of its extra values stands for a length of its own from 3 to 257, but for symbol 284 with 31, which is 258 as symbol 285 is |
| RoundTrip.LengthMeans | boot/zBoot/inflate.c:378-381 | every length from 3 to 258 has such a symbol, the one that section 3.2.5 of RFC 1951 gives |
| RoundTrip.DistancesTile | boot/zBoot/inflate.c:58-65 | each distance symbol starts where the one before ends: CPDIST begins at 1 and grows by 2^CPDEXT, two symbols to each number of extra bits |
| RoundTrip.DistanceCoded | boot/zBoot/inflate.c:394-396 | each of the symbols 0 to 29 with each of its extra values stands for a distance of its own from 1 to 32768 |
| RoundTrip.DistanceMeans | boot/zBoot/inflate.c:394-396 | every distance from 1 to 32768 has such a symbol |
| RoundTrip.CopyIs | boot/zBoot/inflate.c:398-424 | a match repeats the last `dist` bytes, starting over when it is longer than they are |
| RoundTrip.TokensRead | boot/zBoot/inflate.c:331-430 | literals and matches written with the code words of any two trees, and the end code, are read back as the bytes they stand for |
| RoundTrip.FixedWords | boot/zBoot/inflate.c:505-512 | the fixed code words: 0x30 + sym in 8 bits below 144, 0x190 + sym - 144 in 9 below 256, sym - 256 in 7 below 280, 0xC0 + sym - 280 in 8 below 288 |
| RoundTrip.FixedDistanceWords | boot/zBoot/inflate.c:519-522 | the fixed distance code words: sym in 5 bits |
| RoundTrip.StoredReads | boot/zBoot/inflate.c:435-487 | a stored block with its length and the complement is read back as its bytes, after fewer than 8 bits up to the byte boundary |
| RoundTrip.OrderOutwards | boot/zBoot/inflate.c:49-50 | the lengths of the code length code come in the order 16, 17, 18, 0, 8 and then 7, 9, 6, 10 and so on outwards |
| RoundTrip.OrderReads | boot/zBoot/inflate.c:594-601 | lengths sent in that order, the rest being 0, are read back |
| RoundTrip.RunsRead | boot/zBoot/inflate.c:617-661 | lengths, repetitions and runs of zeros are read back as the lists they say |
| RoundTrip.CodeKinds | boot/zBoot/inflate.c:167-174 | huft_build's code is 0 for a complete code, for one with at most a single bit and for none; 2 for an over-full one; 1 otherwise |
| RoundTrip.TreesRead | boot/zBoot/inflate.c:545-716 | a dynamic block's header gives the two lists of lengths that were sent |
| RoundTrip.BlockReads | boot/zBoot/inflate.c:722-765 | the two bits of the type pick the way the block is read, and what is read is what the block says, for types 0, 1 and 2 |
| RoundTrip.StreamReads | boot/zBoot/inflate.c:769-810 | any sequence of stored, fixed and dynamic blocks, the last one marked, is read back as what it says |
| RoundTrip.TypeThree | boot/zBoot/inflate.c:762-764 | type 3 is error 2 |
| RoundTrip.LengthsDisagree | boot/zBoot/inflate.c:455-461 | a stored block whose second length is not the complement of the first is error 1 |
| RoundTrip.TooManyCodes | boot/zBoot/inflate.c:587-589 | more than 286 literal and length codes or 30 distance codes are error 1 |
| RoundTrip.UnusableLengthCode | boot/zBoot/inflate.c:607-612 | an incomplete code length code is error 1, an over-full one error 2 |
| RoundTrip.RunTooLong | boot/zBoot/inflate.c:633-634 | a run past the last length is error 1 |
| RoundTrip.UnusableTrees | boot/zBoot/inflate.c:677-702 | an over-full literal or distance tree is error 2 and an incomplete one stops the machine, the literal tree first |
| RoundTrip.NoSuchLength | boot/zBoot/inflate.c:362-366 | the fixed code words of the symbols 286 and 287 are error 1 |
| RoundTrip.StoredString | boot/zBoot/inflate.c:435-487 | any string of at most 65535 bytes as the one stored block of a stream is read back |
| RoundTrip.LiteralString | boot/zBoot/inflate.c:491-541 | any byte string as the literals of one fixed block is read back |
| RoundTrip.InflateWritten | boot/zBoot/inflate.c:769-810 | inflate() itself, on any such sequence of blocks with 16 bits or more behind it, returns 0 with exactly what the blocks say in the output, its CRC in the register and the input at the first byte behind the stream |
| Crc.MakeCrc | boot/zBoot/misc.c:281-311 | entry i of the table is eight steps of the bitwise register from i |
| Crc.EightSteps | boot/zBoot/misc.c:211-213 | by linearity of a step over exclusive-or, eight steps split into the shifted high bytes and eight steps of the low byte |
| Crc.LookupFeeds | boot/zBoot/misc.c:211-213 | one table look-up equals feeding one byte bit by bit, section 8 of RFC 1952 |
| Crc.CrcRegister.Update | boot/zBoot/misc.c:199-217 | updcrc over n bytes is the bitwise register fed with them, and returns its complement |
| Crc.CrcRegister.Reset | boot/zBoot/misc.c:199-217 | without bytes the register starts over at all ones |
| Crc.CrcOfPieces | boot/zBoot/misc.c:199-217 | updates by pieces give the CRC-32 of the whole |
| CrcNumbers.GeneratorIs | boot/zBoot/misc.c:291-298 | the exponents give the generator 0xEDB88320 of section 8 of RFC 1952 |
| CrcNumbers.StepIs | boot/zBoot/misc.c:305 | a step of the register is, on 32-bit words, a shift and an exclusive-or with that word if a one falls out |
| CrcNumbers.CheckValue | boot/zBoot/misc.c:199-217 | any string followed by its own CRC, low byte first, leaves the register at 0xDEBB20E3 |
| Qsort.Partition | lib/libxc/qsort.c:33-84 | the array is permuted within [a, l) only; below the band all is less than the pivot, in it equal, above it greater; the distance (lp - i) + (j - hp) falls at every step |
| Qsort.ScanHigh | lib/libxc/qsort.c:49-68 | the upper scan keeps the three bands and stops when an entry crosses or none is left |
| Qsort.BandUp | lib/libxc/qsort.c:55-60 | the three-way exchange that moves the band up keeps bands and permutation, even when two of its places coincide |
| Qsort.BandDown | lib/libxc/qsort.c:83-84 | the three-way exchange that moves the band down, likewise |
| Qsort.Across | lib/libxc/qsort.c:61-64 | the two-way exchange across the band keeps bands and permutation |
| Qsort.BandOrders | lib/libxc/qsort.c:71-79 | after a partition only pairs on the same side of the band can be out of order |
| Qsort.ReorderLow | lib/libxc/qsort.c:71-79 | sorting one side disturbs no pair outside it |
| Qsort.Qs1 | lib/libxc/qsort.c:19-86 | sorts [lo, hi) for any total preorder, permutes only within it, and recurses to a depth of at most floor(log2 n) + 1 |
| Qsort.ShallowStep | lib/libxc/qsort.c:71-79 | a call on less than half the entries adds one to the depth |
| Qsort.Exchange | lib/libxc/qsort.c:88-101 | the byte loop exchanges two elements of es bytes and touches no other, even when they are the same |
| Qsort.Exchange3 | lib/libxc/qsort.c:103-119 | the byte loop rotates three elements, of which the last two may be the same |
| Qsort.Sort | lib/libxc/qsort.c:14-17 | the first n elements of es bytes each end up a sorted permutation of themselves, the others unchanged |
| FreeList.CoalescedUnique | c/mem.c:126-200 | the coalesced, address-ordered free list is determined by the set of free bytes |
| FreeList.TakeRelease | c/mem.c:71-200 | taking a block from the list and releasing it again gives the same list |
| FreeList.AnyOrder | c/mem.c:126-200 | releasing the same blocks in any order ends in the same list |
| FreeList.NothingLive | c/mem.c:34-200 | when nothing is live the free list is the one kmeminit built |
| FreeListSteps.CarveTaken | c/mem.c:84-117 | removing or splitting a block takes exactly the granted bytes off the list and keeps it coalesced |
| FreeListSteps.JoinedCoalesced | c/mem.c:168-200 | merging the freed block with the neighbours it touches gives a coalesced list of the same bytes |
| FreeListSteps.HookListed | c/mem.c:88-115 | after the two links around a change are rewritten the headers chain the new list in both directions |
| Heap.NeedExact | c/mem.c:77 | the bytes looked for hold the request and a header exactly for requests up to 0xFFFFFFE0; above that the sum wraps, to 0 up to 0xFFFFFFF0 and to 16 beyond |
| Heap.GrantExact | c/mem.c:71-122 | a granted pointer has its header and all bytes asked for in one formerly free block exactly when the request is at most 0xFFFFFFE0 |
| Heap.GrantWraps | c/mem.c:77-117 | a concrete request that fails: 0xFFFFFFE1 bytes are granted inside the first free block, and cutting no bytes off leaves that block free |
| Heap.NullExact | c/mem.c:71-122 | null comes back exactly for 0 bytes or when no free block can hold the rounded size and a header |
| Heap.LowExact | c/mem.c:44-45 | the first block ends at the hole exactly when freemem is a multiple of 16, and otherwise reaches into the hole |
| Heap.LowFails | c/mem.c:44-45 | freemem = 0x1001: the first block takes 16 bytes of the hole |
| Heap.HighExact | c/mem.c:49-50 | the second block ends at maxaddr exactly when maxaddr is the last byte of a 16-byte unit |
| Heap.HighFails | c/mem.c:49-50 | maxaddr = 0x400000: the byte at maxaddr is in no block |
| Heap.ThreeWay | c/mem.c:174 | between ordered neighbours the one test is true exactly when both sides touch |
| Heap.Around | c/mem.c:168-200 | which tests of merge_coincident hold, and that the assignments made then give the joined list |
| Heap.Freed | c/mem.c:126-165 | a live block put in place and joined keeps the tiling of the arena by free and live blocks |
| Heap.Heap.KMemInit | c/mem.c:34-61 | the list of two blocks around the hole, doubly linked, nothing live |
| Heap.Heap.KMalloc | c/mem.c:71-122 | first fit: the pointer is that of the lowest fitting block, exactly its bytes become live, and the invariant of chaining, marks and tiling is kept |
| Heap.Heap.MergeCoincident | c/mem.c:168-200 | the headers chain the joined list, and no mark and no header off the list changes |
| Heap.Heap.KFree | c/mem.c:126-165 | returns 1 exactly for a header that carries its own address; a live block's bytes become free, its mark is cleared and the invariant kept; a free block so marked is linked to itself and the headers chain no list any more; otherwise nothing changes |
| Heap.FreeWrapped | c/mem.c:77-165 | freeing what kmalloc(0xFFFFFFE1) granted links the first free block to itself: no list of free blocks starts at the head any more |
| Heap.Heap.Store | c/mem.c:126-133 | whatever owners write into their blocks, the invariant holds |
| Heap.AllocateAndFree | c/mem.c:219-269 | an allocation that is freed again leaves free list and live blocks exactly as they were |
| Heap.FreeTwice | c/mem.c:130-133 | a second free of a pointer returns 0 and changes nothing |
| Heap.FreeAll | c/mem.c:249-541 | freeing every live block in any order restores the list kmeminit built |
| Numerals.NumeralMeans | lib/libxc/doprnt.c:250-335 | a numeral stands for its number in its base and has no leading zero but for 0 itself |
| Numerals.SpelledNumeral | lib/libxc/doprnt.c:256-264 | peeling digits from the low end and writing them from the first nonzero one is the numeral |
| Doprnt.Prtl10 | lib/libxc/doprnt.c:250-265 | writes the decimal numeral and a NUL |
| Doprnt.Prtl8 | lib/libxc/doprnt.c:285-301 | writes the octal numeral of the unsigned word, of negative values too: the mask on the eleventh digit removes the sign bits |
| Doprnt.Prtl16 | lib/libxc/doprnt.c:320-335 | writes the hexadecimal numeral of the unsigned word |
| Doprnt.FirstDigitBack | lib/libxc/doprnt.c:138-148 | the billions taken off to make the value positive come back on the first digit, which stays a decimal digit |
| Doprnt.ConvertDecimal | lib/libxc/doprnt.c:138-148 | writes the decimal numeral of the unsigned word, for values of 2^31 and above too |
| Doprnt.PrintNumber | lib/libxc/doprnt.c:104-228 | sign and fill around the one string that spells the unsigned word in base 8 for %o, 16 for %x and 10 for %u, without a sign, and the magnitude in base 10 for %d, with a sign exactly for negative numbers; %d is right for the least integer too |
| Doprnt.SpellsOnce | lib/libxc/doprnt.c:250-335 | only one string of a base's digits without leading zeros has a given value |
| Doprnt.FieldWidth | lib/libxc/doprnt.c:201-228 | a field is exactly as wide as asked, up to 80, or as the number if that is wider |
| Doprnt.FieldSides | lib/libxc/doprnt.c:216-228 | a left-justified field starts with the sign and the digits, any other ends with the digits |
| Atoi.Atoi | lib/libxc/atoi.c:4-26 | the value of the numeral after blanks and one sign, modulo 2^32 |
| Numerals.DigitValues | lib/libxc/doscan.c:167-172 | the digits of both cases have the values 0 to 15 |
| Scanning.CharacterSets | lib/libxc/doscan.c:147-159 | which characters are blanks to atoi and to _innum, and which are digits in bases 8, 10 and 16: 8 and 9 are in base 8 too |
| Doscan.InNum | lib/libxc/doscan.c:138-204 | the value modulo 2^32, the characters consumed and the end mark for base 8 with 'o', 16 with 'x' and 10 otherwise, and any field width; a short gets the number between -2^15 and 2^15 that is the integer scanned modulo 2^16, an int or long the one modulo 2^32, if there is a place and something was matched; and the value returned |
| Doscan.ScannedKept | lib/libxc/doscan.c:148-188 | nothing is matched without a digit, but a minus sign counts by itself |
| Doscan.ShortMeans | lib/libxc/doscan.c:193-195 | a short gets the integer modulo 2^16, from its value modulo 2^32 as from itself |
| Doscan.ResidueOnce | lib/libxc/doscan.c:191-204 | there is only one number in that range |
| PrintScan.FieldMeans | lib/libxc/doprnt.c:201-228 | what a printed field in base 8, 10 or 16 is worth to the scanners: zeros filled in on the right multiply the number |
| PrintScan.ScaledWord | lib/libxc/doprnt.c:226-228 | trailing zeros in base 8, 10 or 16 change a word unless it is 0 |
| PrintScan.DecimalReadsBack | lib/libxc/atoi.c:4-26 | atoi reads back what %d or %u printed exactly when no zeros were filled in on the right, or the value is 0 |
| PrintScan.TrailingZeroReads | lib/libxc/doprnt.c:226-228 | %-02d prints 1 as 10, which atoi reads as 10 |
| PrintScan.NumeralScans | lib/libxc/doscan.c:145-186 | _innum reads back the numerals of %u, %o and %x and stops right behind them |
| PrintScan.NumberReads | lib/libxc/atoi.c:13-26 | blanks, a sign or none, a numeral and anything but a digit behind it read as the number with that sign |
| PrintScan.SignedNumeral | lib/libxc/atoi.c:15-24 | one sign counts, and a second one ends the number |
| PrintScan.PrintThenScan | lib/libxc/doscan.c:138-204 | a word printed by %d, %u, %o or %x and scanned by _innum with the same letter comes back exactly when no zeros were filled in on the right, or it is 0 |
| PrintScan.PrintThenAtoi | lib/libxc/atoi.c:4-26 | a word printed by %d or %u and read by atoi, likewise |
| Blkcopy.UpwardCopies | lib/libxc/blkcopy.s:27-34 | moving units upwards is right when no byte is written before it is read |
| Blkcopy.DownwardCopies | lib/libxc/blkcopy.s:39-52 | moving units downwards, likewise |
| Blkcopy.OutcomeCopies | lib/libxc/blkcopy.s:19-55 | for every overlap of blocks on the same side of 0x80000000 the destination gets the old source bytes and nothing else changes |
| Blkcopy.OutcomeExact | lib/libxc/blkcopy.s:25-26 | the copy is right for every contents of memory exactly when the blocks are on the same side of 0x80000000, or do not overlap, or are a single word: the comparison of addresses is signed |
| Blkcopy.AcrossHalf | lib/libxc/blkcopy.s:25-34 | eight bytes from 0x7FFFFFFF to 0x80000000: the byte for 0x80000004 is the one before the right one |
| Blkcopy.BlkCopy | lib/libxc/blkcopy.s:18-55 | the registers and the two repeated moves leave memory as that outcome says |
| Signal.PendingMeans | c/signal.c:28-33 | the pending signals, each once, in strictly ascending order |
| Signal.Process.PushFrame | c/signal.c:41-71 | mask level, old stack pointer, handler, return address and the eleven registers lie below the old stack pointer, which nothing above changes |
| Signal.Process.Signal | c/signal.c:16-83 | nothing changes, or one frame per pending signal is stacked in ascending order, no signal stays pending and exactly the signals 0 to the highest delivered are masked |
| Signal.Process.Resume | c/ctsw.c:55-61 | the result goes into the saved eax, then popa and iret take all registers from the eleven words on top of the stack |
| Signal.StartHandler | c/ctsw.c:55-61 | after delivery the process starts in sigtramp with interrupts on and I/O privilege level 3, as if sysstop had called sigtramp(handler, context) for the highest signal, the context being the stack pointer to return to |
| Signal.Process.SigReturn | c/disp.c:427-440 | the stack pointer is the one saved and the mask stops below the saved level, or is empty if that was -1 |
| Signal.UnwoundIs | c/disp.c:434-439 | after all frames are popped the mask stops one short of where it was, or is empty |
| Signal.DeliverAndReturn | c/signal.c:16-83 | delivery and the return of every handler restore the stack pointer, and the mask exactly when it was empty or nothing was delivered |
| Signal.OneSignal | c/disp.c:434-439 | with signal 0 masked, delivering signal 1 and returning leaves no signal masked |

## Left out

- HuftBuild: `malloc` failing (return 3), the header entry that chains tables for `huft_free`, and the counter `hufts` are not modelled, tables are fresh arrays.
- Inflate: says nothing where the reference is undefined, that is for a distance beyond the output so far, for a look-up that reads unset memory, and for a tree without codes; globals after an error return are not described.
- InflateWritten: with fewer than 16 bits behind the stream the code may want bits that are not there; a gzip file has 64.
- NeedBits: input is one byte sequence; refilling `inbuf` in pieces and the gzip header and trailer in `misc.c` and `unzip.c` are not part of this model.
- FlushWindow: the copy to `output_data` is an append; the memory it lies in is not modelled.
- Sort: the static `qses`, which makes the C function non-reentrant, is a parameter; memory holds whole elements only.
- KMemInit: memory ends at least 16 bytes below 2^32, so that the pointer past a header is never null; headers are records at multiples of 16, so a pointer that is not a multiple of 16 cannot be passed to KFree.
- KFree: a header that carries its own address without being a live block's or a listed free block's, forged or left over inside a larger block, is outside the model.
- ConvertDecimal: negating the least integer and subtracting below it wrap, as on the i386; C leaves both undefined.
- Prtl10: negative numbers, which line 143 never passes on, would print characters below '0' and are left out.
- PrintNumber: scanning the format string, `*` widths, `%s`, `%c` and `%b` are left out; longflag is 1, as without INT_NOT_LONG.
- InNum: numbuf is only counted, its limit of 64 characters is not checked; `%c`, `%s` and `%[` are left out.
- BlkCopy: memory is one array from address 0; counts of 2^31 and more, which the shift makes negative, are left out.
- Signal: between delivery and return the process itself does not run; its stack below the frames and new signals arriving then are not modelled, nor is sigtramp's own code.
- Resume: the other way of c/ctsw.c, from a process into the kernel, and the registers the kernel saves are not modelled.
- c/sleep.c, c/kbd.c, c/msg.c, c/create.c, the rest of c/disp.c and the device calls are left out: queues and wrappers with easier invariants, or code that uses fields the headers lack.
- The string functions, ecvt.c and atof.c of lib/libxc are left out: simple loops, or floating point.
