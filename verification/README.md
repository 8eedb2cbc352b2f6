# tc in Dafny

A model of seven parts of the tc library, with proofs of what they promise each other and their
callers. Each part is written against a specification of its own, and the two are tied together by
the contracts of the methods that change state.

* **LZ4 streaming codec** (`Lz4*.dfy`). `Lz4Format` says what a block is, how it is laid out in bytes
  and what it expands to. `Lz4Matcher` is the search as a function: a lossy table from four-byte values
  to 16-bit positions, and distances modulo 2^16. `Lz4Compressor` and `Lz4Decompressor` are the two
  resumable machines; `Lz4RoundTrip` runs them with buffers of any sizes, and `Lz4EndRule` is about the
  format's rule on where the last match may start. The round trip holds for every
  non-empty input, what is written does not depend on the buffers, and the 64 KiB ring gives what an
  unbounded history would give. `Lz4Greedy` says in positions and bytes which matches are found, and that this
  determines the compressed form.
* **Free-list allocator** (`Alignment.dfy`, `FreeList*.dfy`). The heap is a set of pages cut into blocks,
  a tree of free blocks, the distances stored before user pointers, and the allocations that are out.
  One invariant is kept by every operation; what it means for callers and pages is proved from it.
  `FreeListRoom.dfy` is about the bytes that are free.
* **Shared and weak handles** (`Shared*.dfy`). `SharedOwnership.dfy` is a transition system in which any number of
  threads copy, move, lock and release handles on one control block, each atomic operation a step of its own. All
  results are about every state of every interleaving; `SharedCalls.dfy` is about whole calls.
  `SharedHandles.dfy` has the same protocol as objects used by one thread, with any number of blocks: there the
  handles are copied, assigned from one block to another, exchanged, locked and released. `SharedNesting.dfy` is
  about handles that are members of shared objects.
* **Atlas packer** (`Atlas*.dfy`). The guillotine tree as a value and as nodes cut in place, the loop that
  starts over with a doubled atlas, the sizes and indices that are computed as ints, and the painting.
* **Hash map** (`HashTable.dfy`, `HashMap.dfy`). Chains of entries that are relinked in place, against an
  index from keys to entries and the map that it stands for.
* **Value noise** (`FixedPoint.dfy`, `SmoothNoise.dfy`, `NoiseValues.dfy`). Interpolation in integers and in Q16,
  and the average over octaves; the last file says what both are between the corners and over the octaves.
* **IP addresses** (`IpLexer.dfy`, `IpParser.dfy`, `IpAddress.dfy`, `IpGrammar.dfy`, `IpDotted.dfy`,
  `IpTexts.dfy`, `IpCase.dfy`). A lexer with one character of look-ahead, what the parser accepts, and the printed
  forms.
  `IpGrammar.dfy` has the colon forms of section 2.2 of RFC 4291, `IpDotted.dfy` the whole grammar with the
  dotted tail: which of its texts are read rightly, and which others are accepted.

`dafny verify dfyconfig.toml` checks the whole project.

## What the code does otherwise than its documentation says

* **The atlas may leave an image out.** The visit that paints starts at the children of the root
  (include/tc/internal/cpp/lang/utils/images/image_tree.hpp:196-200). A lone image that fills the whole atlas
  sits at the root and is never painted. `AtlasPacker.RootImageIff` gives the exact condition in terms of the
  arguments, `AtlasPacker.RootImageIsMissed` a concrete input, and `Pack` both outcomes.
* **The size of an image is computed as an int** (src/image.cpp:28-31, 137 and 173). All indices fit exactly up to
  2^31 bytes (`AtlasImage.IndicesFitIff`); `Pack` says exactly when the size overflows, and
  `AtlasPacker.WideImageOverflows` is a concrete input whose sides fit and whose size does not.
* **The octave average is not defined for all documented arguments.** Factors of zero are documented as
  allowed, and no upper limit is given for the scale and its factor, whose conversion to Q16 multiplies an int
  by an int (include/tc/internal/cpp/lang/numbers.hpp:104-106). `SmoothNoise.AverageIsDefinedIff` says of all
  arguments and coordinates which of them overflow, which divide by zero and which give a value;
  `SmoothNoise.DocumentedArgumentsFail` has concrete ones.
* **`hash_map::replace` always answers false** (include/tc/internal/cpp/lang/utils/hash_map.hpp:921-930), where
  true is documented for a changed value. `Replace` proves both what it changes and what it answers.
* **The last match may start ten bytes before the end**, where the block format asks for twelve. Inputs that
  break the rule exist for exactly the lengths from eleven on (`Lz4EndRule.LengthsThatBreakEndRule`); an input
  keeps it if the four bytes at neither of the two late positions have occurred before within reach of an offset
  (`Lz4EndRule.EndRuleKept`).
* **Copy assignment may read a handle that it has destroyed** (include/tc/internal/smart_ptrs/shared_ptr_t.hpp:678-690):
  the old reference is given up first, as in `p = p->next`. `SharedNesting.SafeToAssignIff` says of any two
  handles, empty or not, exactly when assignment is safe; `SharedNesting.AdvancingFails` and
  `SharedNesting.AdvancingPastTheEndFails` show a list and its end.
* **An empty input compresses to no block**: `Lz4Matcher.BlockIffNotEmpty`.
* **`floor_div` is one too low at negative multiples** (src/smooth_noise.cpp:43-46). `SmoothNoise.Get0IsExact` and
  `SmoothNoise.Get1IsExact` show that the noise is that of the exact floor all the same.
* **A large request is not prepared for a parent that refuses** (src/freelist_allocator.cpp:241-250): null is
  documented on failure, and the code writes near address zero. `AllocateAlign` has that as an outcome of its own and
  says exactly when it happens; `FreeListAllocator.RefusedLargeRequest` is a concrete call. Likewise for a distance
  of more than 16 bits, which `FreeListAllocator.DistanceFitsIff` ties to alignments above 2^15
  (`FreeListAllocator.TruncatedLargeRequest`), and for a needed size of more than 32 bits whose low ones are small
  (src/freelist_allocator.cpp:288-298, `FreeListAllocator.ShortenedRequest`).
* **The IPv6 parser accepts more than addresses** (src/ip_parser.cpp:135-148): colons and dots out of place and
  foreign characters are skipped, groups of more than four digits are cut to 16 bits, and a double colon may stand
  for nothing. `IpDotted.AcceptedIsStrictIff` says exactly which accepted texts are not of the grammar;
  `IpTexts.TrailingColonAccepted`, `IpTexts.ForeignCharacterAccepted` and `IpTexts.FiveDigitsAccepted` show some.
* **It does not know the dotted tail** of the form x:x:x:x:x:x:d.d.d.d. The octets are read as hexadecimal groups:
  with six groups, or five around a double colon, numbers are stored past the end of the array; with fewer the
  address is another one, except in the cases that `IpDotted.DottedReadRightIff` names.
  `IpTexts.MappedAddressMisread` has "::ffff:1.2.3.4" and `IpTexts.FullDottedOverruns` "1:2:3:4:5:6:1.2.3.4".
  A ninth number is stored past the end of the array whatever stands between the numbers: `IpLexer.MeaningV6` has
  that as an outcome, and `IpGrammar.NineWordsOverrun` shows it.

## Model

| member | source | states |
|---|---|---|
| Lz4Format.TokenParts | src/lz4_decompressor.cpp:73-75 | both nibbles come back out of the token they were put into |
| Lz4Format.OffsetParts | src/lz4_decompressor.cpp:147-161 | the two offset bytes, low one first, give the offset back |
| Lz4Format.RunIsPrefixFree | src/lz4_compressor.cpp:229-241 | two length runs followed by anything agree only if the lengths and what follows agree |
| Lz4Format.RunBytes | src/lz4_compressor.cpp:229-241 | all bytes of a length run are 255 but the last, which is smaller, and they add up |
| Lz4Format.LayoutIsUnambiguous | src/lz4_compressor.cpp:176-318 | a byte string is the layout of at most one block |
| Lz4Format.EncodedSize | src/lz4_compressor.cpp:176-318 | a block that stands for n bytes takes at most n + n/255 + 2 |
| Lz4Format.ExpandLength | src/lz4_decompressor.cpp:163-186 | an unbounded decoder puts out exactly the literals and match lengths of a block |
| Lz4Matcher.ReadU32Injective | src/lz4_compressor.cpp:63-68 | equal four-byte readings mean four equal bytes |
| Lz4Matcher.DistanceReachesBack | src/lz4_compressor.cpp:133-134 | the distance modulo 2^16 from a stored 16-bit position never reaches before the input |
| Lz4Matcher.Extension | src/lz4_compressor.cpp:94-108 | the longest run of bytes equal to those a distance back, up to the limit |
| Lz4Matcher.Probe | src/lz4_compressor.cpp:122-150 | a non-zero length is a true repetition of at least 4 bytes that ends 5 bytes before the input does or where the bytes differ |
| Lz4Matcher.Note | src/lz4_compressor.cpp:74-76 | the table keeps its meaning for every later position |
| Lz4Matcher.Entry | src/lz4_compressor.cpp:78-81 | a stored position lies before the one that looks it up |
| Lz4Matcher.Plan | src/lz4_compressor.cpp:110-174 | the sequences cut the input in order without gaps; every offset is 1 to 65535 and inside the input, every match repeats earlier bytes, starts at least 10 bytes before the end and leaves the last 5 alone; the last sequence is literals only |
| Lz4Matcher.CopyRebuilds | src/lz4_decompressor.cpp:170-177 | copying byte by byte rebuilds the input, also when offset and length overlap |
| Lz4Matcher.FaithfulIsWellFormed | src/lz4_compressor.cpp:152-154 | the fields fit the format and no offset reaches before the start |
| Lz4Matcher.FaithfulExpands | src/lz4_decompressor.cpp:188-227 | an unbounded decoder turns the sequences back into the input |
| Lz4Matcher.Stream | src/lz4_compressor.cpp:333-343 | something is written from a position exactly when input is left there |
| Lz4Matcher.CompressedIsSound | src/lz4_compressor.cpp:324-376 | the compressed form is the layout of a block that expands to the input and takes at most n + n/255 + 2 bytes |
| Lz4Matcher.BlockIffNotEmpty | src/lz4_compressor.cpp:333-343 | the output is a block exactly when the input is not empty |
| Lz4Matcher.CompressedIsInjective | src/lz4_compressor.cpp:324-376 | no two inputs have the same compressed form |
| Lz4Greedy.HashIsMask | src/lz4_compressor.cpp:70-72 | the slot is the low 32 bits of a product, masked bit by bit |
| Lz4Greedy.MatchesAreThoseFound | src/lz4_compressor.cpp:119-160 | at every position looked at there is a match exactly if the last such position with the same slot is not stored as an empty one, its 16-bit distance is not zero, and the four bytes agree; it has that offset, and the length of the longest run up to the last five bytes |
| Lz4Greedy.OneBlock | src/lz4_compressor.cpp:119-160 | that leaves one block only |
| Lz4Greedy.CompressedIff | src/lz4_compressor.cpp:110-174 | the compressed form is the layout of exactly the block that cuts the input and has those matches |
| Lz4Greedy.AbcdCompressed | src/lz4_compressor.cpp:110-174 | a concrete input of 24 bytes and the 13 bytes it is compressed to |
| Lz4EndRule.MatchRecurs | src/lz4_compressor.cpp:133-150 | a match means that its four bytes have occurred before within reach of an offset |
| Lz4EndRule.EndRuleKept | src/lz4_compressor.cpp:116-119 | every match starts at least 12 bytes before the end if the four bytes at neither late position recur |
| Lz4EndRule.OnesMatchLate | src/lz4_compressor.cpp:119-162 | from the first of eleven or twelve closing ones on, the scan finds a match that is too late |
| Lz4EndRule.InputBreaks | src/lz4_compressor.cpp:110-174 | zeros and then eleven or twelve ones break the rule, unless the first one's position is stored as an empty slot |
| Lz4EndRule.LengthsThatBreakEndRule | src/lz4_compressor.cpp:110-174 | an input that breaks the rule exists for exactly the lengths from eleven on |
| Lz4Compressor.PendingIsLayout | src/lz4_compressor.cpp:152-171 | once a sequence is in the fields, what is still to be written is the layout of the block it opens |
| Lz4Compressor.TokenStep | src/lz4_compressor.cpp:176-223 | what was pending is the token followed by what is pending afterwards |
| Lz4Compressor.LengthStep | src/lz4_compressor.cpp:225-244 | a literal length may stop after any byte: the part written and the part pending make up the whole |
| Lz4Compressor.LiteralStep | src/lz4_compressor.cpp:246-275 | the same for literals, any number of them at a time |
| Lz4Compressor.OffsetStep | src/lz4_compressor.cpp:277-297 | the same for either offset byte |
| Lz4Compressor.MatchLengthStep | src/lz4_compressor.cpp:299-318 | the same for a match length |
| Lz4Compressor.FinishStep | src/lz4_compressor.cpp:334-338 | at the end of the input nothing is pending |
| Lz4Compressor.ExtendMatch | src/lz4_compressor.cpp:94-108 | the loop gives the longest common run |
| Lz4Compressor.WriteRun | src/lz4_compressor.cpp:229-233 | the 255s written and the rest are the run; it stops early only when the buffer is full |
| Lz4Compressor.Compressor.constructor | src/lz4_compressor.cpp:83-88 | a fresh compressor has the whole compressed form to write |
| Lz4Compressor.Compressor.SwapEntry | src/lz4_compressor.cpp:122-124 | the entry for the four bytes is looked up and replaced |
| Lz4Compressor.Compressor.MatchFrom | src/lz4_compressor.cpp:126-150 | length and distance of the match the entry leads to, or none |
| Lz4Compressor.Compressor.Scan | src/lz4_compressor.cpp:119-162 | the scan stops where the plan has its next sequence |
| Lz4Compressor.Compressor.FindNextMatch | src/lz4_compressor.cpp:110-174 | finding the next sequence does not change what is to be written |
| Lz4Compressor.Compressor.WriteTok | src/lz4_compressor.cpp:176-223 | one byte of what was to be written is written, the rest is still to be written |
| Lz4Compressor.Compressor.WriteLitLen | src/lz4_compressor.cpp:225-244 | at least one byte is, and the rest is still to be written |
| Lz4Compressor.Compressor.WriteLit | src/lz4_compressor.cpp:246-275 | as many literals as fit are written, the rest is still to be written |
| Lz4Compressor.Compressor.WriteOffset | src/lz4_compressor.cpp:277-297 | one offset byte is written, the rest is still to be written |
| Lz4Compressor.Compressor.WriteMatchLen | src/lz4_compressor.cpp:299-318 | at least one byte is written, the rest is still to be written |
| Lz4Compressor.Compressor.Step | src/lz4_compressor.cpp:331-365 | one round writes something or comes closer to writing, and loses nothing |
| Lz4Compressor.Compressor.Compress | src/lz4_compressor.cpp:324-376 | the buffer receives the next bytes of the compressed form; it is left unfilled only when there are no more |
| Lz4Decompressor.RemembersOneMore | src/lz4_decompressor.cpp:117-118 | overwriting the masked slot keeps the ring equal to the last 65536 bytes of the whole history |
| Lz4Decompressor.TokenStep | src/lz4_decompressor.cpp:72-85 | reading a token keeps the final output the same |
| Lz4Decompressor.LengthStep | src/lz4_decompressor.cpp:87-95 | reading a literal length does |
| Lz4Decompressor.LiteralStep | src/lz4_decompressor.cpp:113-127 | passing one literal on does, and the history grows by that byte |
| Lz4Decompressor.LiteralsDone | src/lz4_decompressor.cpp:131-142 | after the literals the input is at its end exactly when the block is |
| Lz4Decompressor.OffsetStep | src/lz4_decompressor.cpp:147-161 | both offset bytes are there and give the offset of the sequence |
| Lz4Decompressor.MatchLengthStep | src/lz4_decompressor.cpp:97-104 | the match length is that of the sequence |
| Lz4Decompressor.CopyStep | src/lz4_decompressor.cpp:170-177 | one copied byte comes from `off` back in the whole history and keeps the final output the same |
| Lz4Decompressor.CopyDone | src/lz4_decompressor.cpp:180-183 | after the match the next sequence follows |
| Lz4Decompressor.NothingLeft | src/lz4_decompressor.cpp:138-141 | when the machine has finished the history is the final output |
| Lz4Decompressor.Decompressor.constructor | src/lz4_decompressor.cpp:65-70 | a fresh decompressor is going to put out what an unbounded decoder does |
| Lz4Decompressor.Decompressor.ReadTok | src/lz4_decompressor.cpp:72-85 | reads on, puts nothing out, and keeps the final output |
| Lz4Decompressor.Decompressor.ReadRun | src/lz4_decompressor.cpp:88-93 | the bytes up to the first below 255 add up to the length that was laid out |
| Lz4Decompressor.Decompressor.ReadLitLength | src/lz4_decompressor.cpp:87-95 | reads on and keeps the final output |
| Lz4Decompressor.Decompressor.ReadMatchLength | src/lz4_decompressor.cpp:97-104 | reads on and keeps the final output |
| Lz4Decompressor.Decompressor.ReadOffset | src/lz4_decompressor.cpp:147-161 | reads on and keeps the final output |
| Lz4Decompressor.Decompressor.Recall | src/lz4_decompressor.cpp:172-172 | the masked slot holds the byte `off` back in the whole history |
| Lz4Decompressor.Decompressor.ReadLits | src/lz4_decompressor.cpp:106-145 | as many literals as fit go to the buffer and the ring |
| Lz4Decompressor.Decompressor.PutCopy | src/lz4_decompressor.cpp:172-176 | one repeated byte goes to the buffer and the ring, the final output stays the same |
| Lz4Decompressor.Decompressor.DecompressLiterals | src/lz4_decompressor.cpp:163-186 | as many repeated bytes as fit do |
| Lz4Decompressor.Decompressor.Step | src/lz4_decompressor.cpp:193-218 | one round reads, puts something out or moves on |
| Lz4Decompressor.Decompressor.Decompress | src/lz4_decompressor.cpp:188-227 | the buffer receives the next bytes of the final output; it is left unfilled only when that is complete |
| Lz4RoundTrip.CompressAll | src/lz4_compressor.cpp:324-376 | calls with buffers of any non-zero sizes end, and together give the compressed form, which does not depend on the sizes |
| Lz4RoundTrip.DecompressAll | src/lz4_decompressor.cpp:188-227 | for every well-formed block and any non-zero sizes the calls end and give what an unbounded decoder gives |
| Lz4RoundTrip.RoundTrip | src/lz4_decompressor.cpp:188-227 | compressing and decompressing any non-empty input with any sizes on both sides gives it back |
| Alignment.AlignUp | include/tc/internal/allocators/helpers.hpp:11-14 | the least multiple that is not below the size |
| Alignment.MaskIsAlignUp | include/tc/internal/allocators/helpers.hpp:11-14 | for a power of two, masking in words of any width is rounding up |
| Alignment.DivisorsOfPowers | include/tc/internal/allocators/helpers.hpp:11-14 | what is aligned to a power of two is aligned to every smaller one |
| FreeListHeap.BlocksApart | src/freelist_allocator.cpp:303-402 | two blocks, small or large, never overlap |
| FreeListHeap.NothingInside | src/freelist_allocator.cpp:241-255 | a region fresh from the parent holds no block |
| FreeListHeap.AddPageKeeps | src/freelist_allocator.cpp:221-231 | a new page as one free block keeps the heap in order |
| FreeListHeap.SplitKeeps | src/freelist_allocator.cpp:344-376 | cutting a block that is out of the tree keeps the heap in order |
| FreeListHeap.MergeKeeps | src/freelist_allocator.cpp:457-468 | joining two free neighbours that are out of the tree does |
| FreeListHeap.HandOutKeeps | src/freelist_allocator.cpp:378-395 | handing a block out does; the stored distance leads back to it |
| FreeListHeap.TakeBackKeeps | src/freelist_allocator.cpp:416-429 | taking a block back does |
| FreeListHeap.AddLargeKeeps | src/freelist_allocator.cpp:233-259 | a block of its own from the parent does |
| FreeListHeap.DropLargeKeeps | src/freelist_allocator.cpp:261-271 | giving it back to the parent does |
| FreeListTheorems.LiveDisjoint | src/freelist_allocator.cpp:319-399 | two live allocations never share a byte |
| FreeListTheorems.LiveInBlock | src/freelist_allocator.cpp:319-399 | a live allocation lies behind the header inside its own block, aligned as recorded |
| FreeListTheorems.LiveClearOfHeaders | src/freelist_allocator.cpp:386-392 | it is clear of every block header and every node of the tree |
| FreeListTheorems.LiveClearOfDistances | src/freelist_allocator.cpp:386-386 | it is clear of the two bytes before any user pointer, and those are clear of what their own header still needs and of every other header and node |
| FreeListTheorems.LiveInPage | src/memory.cpp:13-46 | it is clear of every page header, and a small one lies in one page |
| FreeListTheorems.WalkVisits | src/freelist_allocator.cpp:445-472 | stepping from header to header meets exactly the blocks of the page |
| FreeListTheorems.WalkTiles | src/freelist_allocator.cpp:445-472 | their sizes add up to the page: no byte is lost or counted twice |
| FreeListTheorems.CompactedAfterMerge | src/freelist_allocator.cpp:457-468 | joining two blocks leaves what has been compacted before them compacted |
| FreeListTheorems.JoinEffects | src/freelist_allocator.cpp:457-468 | it touches no block in use and no other page |
| FreeListTheorems.CompactedEverywhere | src/freelist_allocator.cpp:442-475 | compacting every page leaves no two adjacent free blocks anywhere |
| FreeListTheorems.EmptyPagesAreWhole | src/freelist_allocator.cpp:432-476 | once nothing is allocated, a compacted page is one free block of full size, in the tree under that size |
| FreeListRoom.TotalWith | src/freelist_allocator.cpp:209-214 | linking a block adds its size to the sum of all keys |
| FreeListRoom.TotalWithout | src/freelist_allocator.cpp:216-219 | unlinking a block takes its size off that sum |
| FreeListRoom.JoinFree | src/freelist_allocator.cpp:432-476 | joining two free blocks leaves the same bytes free |
| FreeListRoom.SplitFree | src/freelist_allocator.cpp:336-376 | so does cutting one |
| FreeListRoom.BlockTaken | src/freelist_allocator.cpp:378-394 | a block that is handed out takes its own bytes and no others |
| FreeListRoom.BlockGiven | src/freelist_allocator.cpp:407-430 | a block that is given back makes its own bytes free and no others |
| FreeListRoom.InOneBlock | src/freelist_allocator.cpp:432-476 | where no two adjacent blocks are free, free bytes in a row lie in one free block |
| FreeListRoom.KeysTooSmall | src/freelist_allocator.cpp:303-315 | if then no key is enough, no page has that many free bytes in a row |
| FreeListAllocator.RoundedSize | src/freelist_allocator.cpp:284-285 | enough for the request and for the node of a free block, aligned, and less than eight bytes more than that |
| FreeListAllocator.Placement | src/freelist_allocator.cpp:322-329 | the padding is a multiple of the header alignment and below the requested alignment |
| FreeListAllocator.NeededIsTight | src/freelist_allocator.cpp:286-295 | the needed size is enough for every block, and for some at most seven bytes too much |
| FreeListAllocator.AlignedAsAsked | src/freelist_allocator.cpp:283-283 | raising the alignment still serves the one asked for |
| FreeListAllocator.DistanceFitsIff | src/freelist_allocator.cpp:245-250 | the distance of a large allocation fits 16 bits for every region exactly when the alignment is at most 2^15 |
| FreeListAllocator.FreeListAllocator.constructor | src/freelist_allocator.cpp:178-184 | an allocator without pages is in order |
| FreeListAllocator.FreeListAllocator.Link | src/freelist_allocator.cpp:209-214 | a free block enters the tree under its size |
| FreeListAllocator.FreeListAllocator.Unlink | src/freelist_allocator.cpp:216-219 | exactly that block leaves the tree |
| FreeListAllocator.FreeListAllocator.CeilEntry | src/freelist_allocator.cpp:305-305 | a block of the least size that is enough; none only if there is none |
| FreeListAllocator.FreeListAllocator.CompactPage | src/freelist_allocator.cpp:445-472 | the walk ends, compacts the page, keeps every other page compacted and every used block |
| FreeListAllocator.FreeListAllocator.CompactAt | src/freelist_allocator.cpp:449-471 | one step joins two free neighbours or moves on; what lies before stays compacted, no used block changes |
| FreeListAllocator.FreeListAllocator.JoinWithNext | src/freelist_allocator.cpp:459-466 | the two blocks become one of their total size |
| FreeListAllocator.FreeListAllocator.Compact | src/freelist_allocator.cpp:432-476 | afterwards no two adjacent blocks are free; allocations and used blocks are untouched |
| FreeListAllocator.FreeListAllocator.AllocatePage | src/freelist_allocator.cpp:221-231 | a granted page is in the tree with its full size; a refusal changes nothing |
| FreeListAllocator.FreeListAllocator.AllocFromParent | src/freelist_allocator.cpp:233-259 | a new aligned allocation in a block of its own; or a write near zero if the parent refuses; or a truncated distance if the true one has more than 16 bits |
| FreeListAllocator.FreeListAllocator.TakeLarge | src/freelist_allocator.cpp:247-255 | header and distance of a large block are written, and the heap is in order |
| FreeListAllocator.FreeListAllocator.Carve | src/freelist_allocator.cpp:317-399 | a new aligned allocation of the size asked for; no other allocation, distance or used header changes |
| FreeListAllocator.FreeListAllocator.CarveRest | src/freelist_allocator.cpp:354-399 | the allocation is what was asked for, its block is no larger than it must be but for a remainder too small for a block, and just the bytes of that block are no longer free or in the tree |
| FreeListAllocator.FreeListAllocator.TrimFront | src/freelist_allocator.cpp:344-352 | padding that can hold a block becomes a free block, smaller padding stays |
| FreeListAllocator.FreeListAllocator.TrimRest | src/freelist_allocator.cpp:364-376 | a remainder that can hold a block becomes a free block, a smaller one stays |
| FreeListAllocator.FreeListAllocator.HandOut | src/freelist_allocator.cpp:378-395 | the block is in use, and the distance before the user pointer leads to it |
| FreeListAllocator.FreeListAllocator.Deallocate | src/freelist_allocator.cpp:407-430 | the stored distance leads to the owning block: a small one becomes free and linked, a large one goes back to the parent whole; everything else stays; null is ignored |
| FreeListAllocator.FreeListAllocator.AllocateAlign | src/freelist_allocator.cpp:273-405 | an aligned allocation of at least the size; null only if the request is small and the parent refused a page; a write near zero exactly if it is large and refused; a truncated distance exactly if it is large, granted, and the distance has more than 16 bits; a search for too small a block exactly if the needed size has more than 32 bits and the low ones are small; a small allocation takes just the bytes of its block, which is hardly larger than needed, from those that were free and those of a new page; the parent is asked, or null answered, only if no page had the needed bytes free in a row, and null leaves a joined heap without a key that is enough |
| FreeListAllocator.RefusedLargeRequest | src/freelist_allocator.cpp:298-301 | a concrete large request to a refusing parent is answered by a write to address 38 |
| FreeListAllocator.TruncatedLargeRequest | src/freelist_allocator.cpp:247-250 | a concrete large request before whose pointer 0 is stored instead of 2^16 |
| FreeListAllocator.ShortenedRequest | src/freelist_allocator.cpp:288-305 | a concrete request of 4 GiB that starts a search for a block of 8 bytes |
| FreeListAllocator.FreeListAllocator.FindRoom | src/freelist_allocator.cpp:303-315 | a block for the request is found, after joining and a new page if need be, unless the page is refused; a page is asked for only if there was no room |
| FreeListAllocator.FreeListAllocator.AllocSmall | src/freelist_allocator.cpp:303-404 | search, compaction and a new page always suffice, with the worst padding, unless the page is refused; how much is taken from what was free |
| FreeListAllocator.SecondRequest | src/freelist_allocator.cpp:303-404 | two concrete requests that one page serves |
| SharedOwnership.InitInv | include/tc/internal/smart_ptrs/control_block.hpp:24-29 | a new block with one owner satisfies the invariant |
| SharedOwnership.TallyStepKeeps | include/tc/internal/smart_ptrs/control_block.hpp:50-58 | every step keeps the counters balanced, and a strong count of zero stays zero |
| SharedOwnership.StepKeepsInv | include/tc/internal/smart_ptrs/shared_ptr_t.hpp:637-729 | every step of any thread keeps the invariant |
| SharedOwnership.RunKeepsInv | include/tc/internal/smart_ptrs/shared_ptr_t.hpp:637-937 | every state of every interleaving satisfies it |
| SharedOwnership.Counters | include/tc/internal/smart_ptrs/control_block.hpp:50-65 | strong counts the shared handles, weak the weak handles plus one until the last owner gives it up, decrements still owed included |
| SharedOwnership.Lifetimes | include/tc/internal/smart_ptrs/shared_ptr_t.hpp:717-729 | object and block are destroyed at most once, in that order, and live as long as handles need them |
| SharedOwnership.NothingAfterFree | include/tc/internal/smart_ptrs/shared_ptr_t.hpp:717-729 | no step touches a freed block or a destroyed object |
| SharedOwnership.NothingLeaks | include/tc/internal/smart_ptrs/shared_ptr_t.hpp:859-867 | when all handles are released and all threads done, both have been destroyed exactly once |
| SharedOwnership.ZeroIsForever | include/tc/internal/smart_ptrs/control_block.hpp:71-87 | a strong count of zero is zero in every later state |
| SharedOwnership.LockIsLinearizable | include/tc/internal/smart_ptrs/shared_ptr_t.hpp:928-937 | locking yields an owner by one atomic step from a positive count with the object alive, or nothing, when the count is zero for good |
| SharedOwnership.LockSeesTheCount | include/tc/internal/smart_ptrs/control_block.hpp:71-87 | in any run, the value a lock goes by is one the count had between its load and now, across failed exchanges and steps of other threads |
| SharedOwnership.FailedLockSawZero | include/tc/internal/smart_ptrs/shared_ptr_t.hpp:928-937 | a lock that gives up had the count at zero during the call, and the count has stayed zero since |
| SharedCalls.LockEnds | include/tc/internal/smart_ptrs/control_block.hpp:71-87 | a call to lock, from before its load to its end in any interleaving, either saw the count at zero during the call or ends with exactly one new owner, made from a positive count with the object alive |
| SharedCalls.LockAlone | include/tc/internal/smart_ptrs/control_block.hpp:71-87 | without other steps and spurious failures, a lock from a positive count has made an owner after two steps |
| SharedCalls.CopyEnds | include/tc/internal/smart_ptrs/shared_ptr_t.hpp:637-690 | copying a shared handle ends with one new owner, counted, and the object alive |
| SharedCalls.WeakCopyEnds | include/tc/internal/smart_ptrs/control_block.hpp:57-57 | making a weak handle ends with one more, counted, and the block alive |
| SharedCalls.MayBegin | include/tc/internal/smart_ptrs/shared_ptr_t.hpp:637-937 | an idle thread may begin any call on a handle that is there and that nobody uses |
| SharedCalls.MayMove | include/tc/internal/smart_ptrs/shared_ptr_t.hpp:692-714 | a handle that nobody uses may be moved to a new place, and no counter changes |
| SharedCalls.NeverStuck | include/tc/internal/smart_ptrs/shared_ptr_t.hpp:637-937 | a busy thread has a next step while there is room for a handle |
| SharedCalls.EveryStepCounts | include/tc/internal/smart_ptrs/control_block.hpp:71-87 | every step brings a call nearer to its end, but for an exchange that fails because the count has changed or for no reason |
| SharedHandles.ControlBlock.TryIncStrong | include/tc/internal/smart_ptrs/control_block.hpp:71-87 | raises the count exactly when it is positive, and says so |
| SharedHandles.ControlBlock.Release | include/tc/internal/smart_ptrs/shared_ptr_t.hpp:720-727 | the last owner destroys the object, and the block if nobody watches it; no destroyed thing is touched |
| SharedHandles.ControlBlock.ReleaseWeak | include/tc/internal/smart_ptrs/shared_ptr_t.hpp:862-865 | the last reference frees the block, whose object is gone by then |
| SharedHandles.BalanceChanges | include/tc/internal/smart_ptrs/shared_ptr_t.hpp:637-937 | copying and releasing keep the counters equal to the numbers of handles |
| SharedHandles.OwnerAlive | include/tc/internal/smart_ptrs/shared_ptr_t.hpp:717-729 | a shared handle keeps object and block alive |
| SharedHandles.WatcherAlive | include/tc/internal/smart_ptrs/shared_ptr_t.hpp:859-867 | a weak handle keeps the block alive |
| SharedHandles.NothingLeaks | include/tc/internal/smart_ptrs/shared_ptr_t.hpp:717-729 | without handles every object has been destroyed and every block freed, once each |
| SharedHandles.MakeShared | include/tc/internal/smart_ptrs/control_block.hpp:24-29 | a new block has one owner, and all others are as they were |
| SharedHandles.SharedPtr.Cleanup | include/tc/internal/smart_ptrs/shared_ptr_t.hpp:716-729 | exactly this handle stops counting, for its own block |
| SharedHandles.SharedPtr.Copy | include/tc/internal/smart_ptrs/shared_ptr_t.hpp:637-643 | one more handle counts for the same block |
| SharedHandles.SharedPtr.Assign | include/tc/internal/smart_ptrs/shared_ptr_t.hpp:677-690 | the handle leaves its block and counts for the other's, also when both are the same; assigning to itself changes nothing |
| SharedNesting.HeldSurvive | include/tc/internal/smart_ptrs/shared_ptr_t.hpp:716-729 | handles that hold each other from outside survive any release of others, with all that falls with those |
| SharedNesting.LeftHolds | include/tc/internal/smart_ptrs/shared_ptr_t.hpp:716-729 | what a release leaves holds itself, and nothing released is left |
| SharedNesting.SafeToAssignIff | include/tc/internal/smart_ptrs/shared_ptr_t.hpp:678-690 | copy assignment between any two handles, empty or not, is safe exactly when they are the same or the objects that source and target lie in are held from outside without the target |
| SharedNesting.OwningSourceCounts | include/tc/internal/smart_ptrs/shared_ptr_t.hpp:678-690 | a source that owns something stays exactly when it is not released along with the target |
| SharedNesting.VariablesAreSafe | include/tc/internal/smart_ptrs/shared_ptr_t.hpp:678-690 | between handles that lie in no object, empty or not, it is always safe |
| SharedNesting.EmptyTargetIsSafe | include/tc/internal/smart_ptrs/shared_ptr_t.hpp:678-690 | assigning to an empty handle is safe from every handle whose object is alive |
| SharedNesting.OnlyOwnerFails | include/tc/internal/smart_ptrs/shared_ptr_t.hpp:678-690 | it is never safe from a member of an object that only the target owns |
| SharedNesting.AdvancingFails | include/tc/internal/smart_ptrs/shared_ptr_t.hpp:678-690 | a concrete list along which one cannot advance |
| SharedNesting.AdvancingPastTheEndFails | include/tc/internal/smart_ptrs/shared_ptr_t.hpp:678-690 | nor from its last node, where the source is empty |
| SharedHandles.SharedPtr.MoveAssign | include/tc/internal/smart_ptrs/shared_ptr_t.hpp:692-700 | the two handles exchange their blocks, and no counter changes |
| SharedHandles.Watch | include/tc/internal/smart_ptrs/shared_ptr_t.hpp:799-802 | one more weak handle to the block of a shared one |
| SharedHandles.WeakPtr.Cleanup | include/tc/internal/smart_ptrs/shared_ptr_t.hpp:858-867 | exactly this weak handle stops counting |
| SharedHandles.WeakPtr.Assign | include/tc/internal/smart_ptrs/shared_ptr_t.hpp:893-906 | the weak handle leaves its block and counts for the other's |
| SharedHandles.WeakPtr.Lock | include/tc/internal/smart_ptrs/shared_ptr_t.hpp:927-937 | a new owner of the block exactly when it still has one, otherwise an empty handle and no change |
| AtlasTree.PutIffFits | src/image_tree.cpp:62-103 | an image finds room exactly when some free leaf is at least as wide and as high |
| AtlasTree.PutKeepsTiling | src/image_tree.cpp:84-103 | an insertion keeps the root and the tiling and gives a rectangle of exactly the size |
| AtlasTree.PutKeepsPlacements | src/image_tree.cpp:62-103 | every image keeps its rectangle and id, and only the new one is added |
| AtlasTree.LeavesTile | src/image_tree.cpp:84-100 | every point of the root lies in exactly one leaf |
| AtlasTree.PlacementsApart | src/image_tree.cpp:62-103 | placed rectangles lie in the root and are pairwise disjoint |
| AtlasTree.PutLeavesRoom | src/image_tree.cpp:84-103 | one insertion costs at most m in each direction of the room that some free leaf offers |
| AtlasTree.PutCut | src/image_tree.cpp:86-102 | a free leaf that is too big is cut once or twice, each time into fewer mismatches, until a part has the exact size |
| AtlasTree.PutInLeaf | src/image_tree.cpp:84-102 | what becomes of a free leaf, by comparing its sides: the image in its corner, the rest of its strip, the rest of the leaf |
| AtlasTree.PutAtFirstRoom | src/image_tree.cpp:70-103 | an image goes into the first leaf with room, from left to right, and only that leaf is replaced |
| AtlasNode.Node.PutImage | src/image_tree.cpp:62-103 | the node tree becomes what the insertion says, the answer is the leaf that holds the image, or null and nothing changes; negative sizes are refused |
| AtlasNode.Node.Insert | src/image_tree.cpp:70-103 | the same below any node |
| AtlasNode.Node.InsertBelow | src/image_tree.cpp:70-75 | the left half first, then the right one |
| AtlasNode.Node.CutAndInsert | src/image_tree.cpp:84-102 | a free leaf that is too big is cut in place |
| AtlasPasses.RoomForTheRest | src/image_packer.cpp:77-91 | with k images left, a free leaf of k times the largest side takes them all |
| AtlasPasses.PassSucceeds | src/image_packer.cpp:77-91 | a pass over N images succeeds once both sides reach N times the largest side |
| AtlasPasses.PassHolds | src/image_packer.cpp:77-91 | a pass that succeeds leaves every image in the tree once, in its own size |
| AtlasPasses.EnoughSucceeds | src/image_packer.cpp:82-91 | after enough doublings the pass succeeds |
| AtlasPasses.EnoughExists | src/image_packer.cpp:86-90 | some number of doublings is enough |
| AtlasPacker.ImagePacker.CreateTree | src/image_packer.cpp:71-93 | a side overflows an int exactly when no pass succeeds while both fit; otherwise the loop ends with the tree of the first doubling that succeeds, which is no later and no larger than the first that meets the bound |
| AtlasPacker.NoSideOverflows | src/image_packer.cpp:88-89 | no side overflows an int at any time exactly when some pass succeeds while both sides fit |
| AtlasPacker.FirstFits | src/image_packer.cpp:106-106 | some pass succeeds on an atlas of fewer than 2^31 bytes exactly when the first one that succeeds does |
| AtlasPacker.BytesNeedSides | src/image_packer.cpp:88-106 | an atlas whose bytes fit an int has sides that do |
| AtlasPacker.EnoughFits | src/image_packer.cpp:106-106 | the atlas fits if it does at the first doubling that meets the bound |
| AtlasPacker.WideImageOverflows | src/image_packer.cpp:106-106 | a concrete input whose sides fit an int and whose atlas does not: the last index is 2^32 - 4 |
| AtlasPacker.NarrowStartOverflows | src/image_packer.cpp:88-89 | a concrete start whose first doubling overflows |
| AtlasPacker.ImagePacker.TryAll | src/image_packer.cpp:77-91 | one pass, up to the first image without room |
| AtlasPacker.ImagePacker.Paint | src/image_packer.cpp:147-183 | painting one image leaves those painted before as they are |
| AtlasPacker.ImagePacker.Visit | include/tc/internal/cpp/lang/utils/images/image_tree.hpp:185-194 | after the visit every image below the node is shown, and nothing else has changed |
| AtlasPacker.ImagePacker.DepthSearch | include/tc/internal/cpp/lang/utils/images/image_tree.hpp:196-200 | exactly the placements below the root are shown, and nothing outside them changes |
| AtlasPacker.ImagePacker.Render | src/image_packer.cpp:106-195 | the atlas shows what is reported and is black elsewhere |
| AtlasPacker.ImagePacker.Pack | src/image_packer.cpp:95-196 | without scaling, an atlas comes back exactly when some pass succeeds on one of fewer than 2^31 bytes and each image has fewer; then every image is in it pixel for pixel in a rectangle of its size, unless a lone image fills the atlas, which is then black |
| AtlasPacker.ImagePacker.ImagesFit | src/image_packer.cpp:61-69 | whether the sizes of all images fit an int |
| AtlasPacker.RootImageIff | src/image_packer.cpp:71-93 | an image ends up at the root exactly when it is the only one and as large as the starting size doubled some number of times |
| AtlasPacker.RootImageIsMissed | include/tc/internal/cpp/lang/utils/images/image_tree.hpp:196-200 | a concrete input whose only image is not reported |
| AtlasPacker.VisitReportsAll | include/tc/internal/cpp/lang/utils/images/image_tree.hpp:196-200 | the visit reports all placements exactly when the root holds no image |
| AtlasPacker.ScaledStaysApart | src/image_packer.cpp:166-169 | for any scale the rectangles divided by it stay in the divided atlas and pairwise disjoint |
| AtlasImage.IndicesFitIff | src/image.cpp:28-31 | every index of an image fits an int exactly for at most 2^31 bytes, and the size does too exactly for fewer |
| AtlasImage.IndexApart | src/image.cpp:137-137 | distinct pixels use distinct bytes |
| AtlasImage.Image.GetPixel | src/image.cpp:131-166 | reads the pixel, fully opaque when there are three channels or one, or throws exactly for other numbers of channels than one, three and four |
| AtlasImage.Image.SetPixel | src/image.cpp:168-205 | the channels are stored one behind the other, the pixel can be read back, and every other pixel is as before; an unsupported number of channels throws and changes nothing |
| AtlasImage.Blit | src/image_packer.cpp:171-182 | the rectangle shows the image, and nothing outside it changes |
| HashTable.Push | include/tc/internal/shared/map_utils.hpp:57-62 | prepending an entry for a new key keeps every entry once in its chain |
| HashTable.Drop | include/tc/internal/cpp/lang/utils/hash_map.hpp:941-953 | so does taking one out |
| HashTable.There | include/tc/internal/shared/map_utils.hpp:65-84 | the entry for a key is in the chain its hash selects, and no other entry has that key |
| HashTable.OneEntryPerKey | include/tc/internal/shared/map_utils.hpp:87-107 | the chains together hold exactly as many entries as there are keys |
| HashTable.PassOne | include/tc/internal/shared/map_utils.hpp:98-106 | going through the chains meets each entry once: one more of them, never one met before |
| HashTable.PassAll | include/tc/internal/shared/map_utils.hpp:98-106 | and in the end all of them |
| HashTable.AfterDrop | include/tc/internal/cpp/lang/utils/hash_map.hpp:943-953 | dropping an entry takes just that one away |
| HashTable.Skipped | include/tc/internal/cpp/lang/utils/hash_map.hpp:945-952 | letting the predecessor point past an entry links the chain without it |
| HashMap.HashMap.constructor | include/tc/internal/cpp/lang/utils/hash_map.hpp:766-773 | an empty map |
| HashMap.HashMap.AppendEntry | include/tc/internal/shared/map_utils.hpp:56-62 | the entry heads its chain, all other chains hang as before |
| HashMap.HashMap.FindEntry | include/tc/internal/shared/map_utils.hpp:70-84 | the entry for the key, or null exactly when the key has none |
| HashMap.HashMap.Rehash | include/tc/internal/shared/map_utils.hpp:87-107 | for any non-zero capacity every entry ends up once in bucket hash % capacity, every key still leads to the same entry, values and allocations are untouched; nothing happens at the same capacity |
| HashMap.HashMap.Relink | include/tc/internal/shared/map_utils.hpp:100-105 | one entry moves to its new chain while the rest of its old one still hangs |
| HashMap.HashMap.InsertEntry | include/tc/internal/shared/map_utils.hpp:115-136 | adds an entry if the key has none, otherwise answers null and changes nothing; running out of memory changes nothing |
| HashMap.HashMap.Clear | include/tc/internal/shared/map_utils.hpp:139-150 | every entry is freed, none twice, and the map is empty |
| HashMap.HashMap.FreeAll | include/tc/internal/shared/map_utils.hpp:140-148 | the entries freed one by one are exactly those allocated |
| HashMap.HashMap.FreeEntry | include/tc/internal/shared/map_utils.hpp:50-54 | only a live entry can be freed |
| HashMap.HashMap.EnsureCapacity | include/tc/internal/cpp/lang/utils/hash_map.hpp:845-864 | sixteen buckets at first, half as many again and at least sixteen once the load is above the factor, otherwise the same; memory runs out exactly if there is none and more buckets are due; the map is the same |
| HashMap.CapacityIs | include/tc/internal/cpp/lang/utils/hash_map.hpp:845-864 | when and to how many buckets the table grows, without divisions |
| HashMap.HashMap.Put | include/tc/internal/cpp/lang/utils/hash_map.hpp:868-895 | the key maps to the value; exactly when memory runs out, and then the map is as before; how the table grows |
| HashMap.HashMap.Insert | include/tc/internal/cpp/lang/utils/hash_map.hpp:899-917 | maps the key only if it was not mapped, and says so; exactly when memory runs out, and then the map is as before; how the table grows |
| HashMap.HashMap.Replace | include/tc/internal/cpp/lang/utils/hash_map.hpp:921-930 | changes the value of a mapped key only; the answer is always no, which is right exactly for unmapped keys |
| HashMap.HashMap.Remove | include/tc/internal/cpp/lang/utils/hash_map.hpp:933-957 | the key is unmapped, its entry alone is freed, and the answer says whether there was one |
| HashMap.HashMap.Unlink | include/tc/internal/cpp/lang/utils/hash_map.hpp:943-952 | the entry leaves its chain and the index |
| HashMap.HashMap.Get | include/tc/internal/cpp/lang/utils/hash_map.hpp:961-966 | the value, or an exception exactly when the key is not mapped |
| HashMap.HashMap.ContainsKey | include/tc/internal/cpp/lang/utils/hash_map.hpp:977-979 | whether the key is mapped |
| HashMap.HashMap.Size | include/tc/internal/cpp/lang/utils/hash_map.hpp:993-995 | the number of mapped keys |
| FixedPoint.TruncPart | src/smooth_noise.cpp:67-69 | truncating a fraction of a difference stays between zero and the difference, and is exact at both ends |
| FixedPoint.MulPart | include/tc/internal/cpp/lang/numbers.hpp:142-147 | a product with a factor in [0,1], rounded down, stays between zero and the other factor, exact at both ends |
| FixedPoint.LerpBetween | include/tc/internal/cpp/lang/math/math.hpp:29-32 | interpolation stays between its ends and reaches them exactly |
| FixedPoint.ConvertibleIff | include/tc/internal/cpp/lang/numbers.hpp:104-106 | the conversion of a non-negative int does not overflow exactly below 32768 |
| FixedPoint.WrappedToZero | include/tc/internal/cpp/lang/numbers.hpp:104-106 | on a machine that wraps around, exactly the multiples of 65536 are converted to zero |
| FixedPoint.Fraction | include/tc/internal/cpp/lang/numbers.hpp:152-157 | the exact quotient of whole numbers k <= n is in [0,1], 0 and 1 at the ends |
| FixedPoint.QuinticStays | include/tc/internal/cpp/lang/math/math.hpp:279-282 | the quintic curve stays in [0,1] in spite of the rounding of each product |
| FixedPoint.QuinticEnds | include/tc/internal/cpp/lang/math/math.hpp:279-282 | it maps 0 to 0 and 1 to 1 exactly |
| FixedPoint.QuinticNear | include/tc/internal/cpp/lang/math/math.hpp:279-282 | as computed it is at most 22 units of 2^-16 below 6 t^5 - 15 t^4 + 10 t^3 for t in [0,1], and never above |
| SmoothNoise.FloorDivIs | src/smooth_noise.cpp:43-46 | the division is the exact floor, but one lower exactly at negative multiples |
| SmoothNoise.PlacesAgree | src/smooth_noise.cpp:52-59 | cell and distance agree with the exact floor, or name the end of the cell before |
| SmoothNoise.CellFitsIff | src/smooth_noise.cpp:52-59 | the cell of a coordinate fits a long exactly when its end away from zero does, and for the largest coordinate if the scale is above 1 |
| SmoothNoise.ReachableFits | src/smooth_noise.cpp:52-59 | one cell away from the ends of its type, a coordinate's cell fits a long |
| SmoothNoise.LastCellOverflows | src/smooth_noise.cpp:52-59 | the smallest coordinate has a cell that starts before the type does |
| SmoothNoise.MixBetween | src/smooth_noise.cpp:67-69 | the conversion to a signed byte never wraps, and the mix stays between the two values |
| SmoothNoise.BlendWraps | src/smooth_noise.cpp:61-71 | the end of a cell is the start of the next one, in both directions |
| SmoothNoise.Get0IsExact | src/smooth_noise.cpp:48-72 | the integer noise is that of the exact floor, for all coordinates whose cell fits |
| SmoothNoise.Get0Between | src/smooth_noise.cpp:48-72 | wherever it is defined it stays between the smallest and the largest corner value |
| SmoothNoise.Get0AtCorner | src/smooth_noise.cpp:48-72 | at a grid corner, on either side of zero, it is the corner's value |
| NoiseValues.Get0Is | src/smooth_noise.cpp:48-72 | the integer noise is less than two units off the bilinear value between the four corners of the exact floor |
| SmoothNoise.Get1IsDefinedIff | src/smooth_noise.cpp:74-106 | the fixed-point noise is defined exactly for scales below 32768 and coordinates whose cell fits, and overflows for all others |
| SmoothNoise.Get1IsExact | src/smooth_noise.cpp:74-106 | for scales below 32768 and coordinates whose cell fits it is that of the exact floor, for any curve from 0 to 1 |
| SmoothNoise.Get1Between | src/smooth_noise.cpp:74-106 | wherever it is defined it stays between the corner values in units of 127, for any curve within [0,1] |
| NoiseValues.Get1Is | src/smooth_noise.cpp:74-106 | the fixed-point noise, times 127, is less than 128 units of 2^-16 off the value between the corners, with the weights that the curve gives |
| SmoothNoise.LongSuffices | include/tc/internal/cpp/lang/numbers.hpp:142-157 | for scales below 32768 and curves within [0,1] every product and shifted dividend fits a long |
| SmoothNoise.Get | src/smooth_noise.cpp:112-142 | the loop over octaves gives the weighted average, with its exceptions, overflows and divisions by zero |
| SmoothNoise.OctavesBounded | src/smooth_noise.cpp:128-139 | the weighted sum never exceeds the sum of the weights, whatever the rounding, and that grows by at most 1 an octave |
| SmoothNoise.FrequencyFits | src/smooth_noise.cpp:130-136 | below a scale of 32768 the next frequency always fits an int |
| NoiseValues.OctaveScaleIs | src/smooth_noise.cpp:130-130 | the scale of an octave is the exact quotient, rounded down |
| SmoothNoise.AverageIsDefinedIff | src/smooth_noise.cpp:112-142 | legal arguments overflow exactly if the scale or the scale factor is 32768 or more or a cell of the point does not fit in an octave that is taken; otherwise they divide by zero exactly if the scale factor is zero, or the frequency factor is and there is a second octave; all others give a value |
| SmoothNoise.ReachableFitsAll | src/smooth_noise.cpp:128-134 | one cell of the scale away from the ends of their type, coordinates fit in all octaves |
| SmoothNoise.DocumentedArgumentsFail | src/smooth_noise.cpp:112-142 | concrete documented arguments that divide by zero and that overflow |
| SmoothNoise.AverageInUnit | src/smooth_noise.cpp:112-142 | wherever it is defined the average is in [-1,1], and in [0,1] when no corner value is negative |
| SmoothNoise.AverageFits | src/smooth_noise.cpp:141-141 | the dividend and the divisor of the last division fit a long for any number of octaves |
| SmoothNoise.OneOctave | src/smooth_noise.cpp:112-142 | one octave is the plain noise, exactly, overflow included |
| NoiseValues.AverageIs | src/smooth_noise.cpp:112-142 | wherever it is defined, the average is the sum over the octaves with a scale above zero of noise times amplitude, divided by the sum of amplitudes; frequency and amplitude are powers of the factors |
| SmoothNoise.CurvesAreFine | src/smooth_noise.cpp:152-154 | the identity and the quintic curve meet both conditions on curves |
| IpLexer.RunLength | src/ip_parser.cpp:66-74 | the longest run of digits at the front |
| IpLexer.First | src/ip_parser.cpp:40-92 | a token is never the end marker and always leaves less text |
| IpLexer.LexNumber | src/ip_parser.cpp:62-87 | digits followed by anything else are one number, and lexing goes on behind them |
| IpLexer.Reading | src/ip_parser.cpp:40-92 | what one call reads is the next token of the whole text, and the text left gets shorter |
| IpParser.IpParser.NextChar | src/ip_parser.cpp:22-30 | the character at hand is dropped, or the first one fetched |
| IpParser.IpParser.NextTok | src/ip_parser.cpp:40-92 | the next token of the text; every call shortens the text left or reaches the end |
| IpParser.IpParser.NextNumber | src/ip_parser.cpp:62-87 | the value of the longest run of digits, decimal only without letters; more than 63 digits are refused |
| IpParser.IpParser.ParseV4 | src/ip_parser.cpp:94-127 | four numbers of at most 255 with dots between them and nothing else, or the exception |
| IpParser.IpParser.ParseV6 | src/ip_parser.cpp:129-165 | eight groups, or fewer and one double colon, or the exception, or a store past the array at a ninth number; the loop ends |
| IpParser.IpParser.Expand | src/ip_parser.cpp:152-156 | the shift in place puts the missing zeros where the double colon was and moves the rest behind them |
| IpParser.IpParser.Parse | src/ip_parser.cpp:167-171 | the grammar of the family asked for |
| IpAddress.HtonsTwice | src/inetaddr.cpp:189-190 | swapping bytes twice changes nothing |
| IpAddress.HighByteFirst | src/inetaddr.cpp:189-190 | after swapping the high byte is stored first |
| IpAddress.IntViewBytes | src/inetaddr.cpp:270-274 | shifting and masking the integer view gives the four bytes in order |
| IpAddress.AsIp4 | src/inetaddr.cpp:171-181 | the first four bytes, or the exception exactly for fewer |
| IpAddress.AsIp6 | src/inetaddr.cpp:183-193 | the first eight groups in network order, each with its high byte first, or the exception exactly for fewer |
| IpAddress.PrintIsNumber | src/inetaddr.cpp:276-287 | a printed number consists of digits that have its value, without letters in base ten |
| IpAddress.NoLeadingZero | src/inetaddr.cpp:276-287 | no printed number but zero begins with a zero |
| IpAddress.LexPrinted | src/ip_parser.cpp:62-87 | a printed number is lexed back to its value |
| IpAddress.RoundTripV4 | src/inetaddr.cpp:266-277 | every IPv4 address is parsed back from its printed form |
| IpAddress.RoundTripV6 | src/inetaddr.cpp:279-288 | every IPv6 address is parsed back from its printed form |
| IpAddress.LexJoin | src/ip_parser.cpp:135-148 | groups with colons between them are lexed to their values in order |
| IpAddress.DoubleColonExpands | src/ip_parser.cpp:150-157 | for groups a and b, at most eight together, "a::b" means a, zeros, b |
| IpAddress.SecondDoubleColonIsInvalid | src/ip_parser.cpp:138-143 | a second double colon is refused |
| IpLexer.OverrunsWhen | src/ip_parser.cpp:130-147 | with at most one double colon, exactly texts of more than eight numbers are stored past the array |
| IpGrammar.ColonFullAccepted | src/ip_parser.cpp:129-165 | eight words with single colons between them are the address |
| IpGrammar.ColonShortAccepted | src/ip_parser.cpp:150-157 | fewer words and one double colon are the address with zeros in its place |
| IpGrammar.ColonFormIff | src/ip_parser.cpp:135-148 | tokens are of a colon form exactly when each is one of the grammar and goes with its neighbours, and they count up to eight groups, or fewer and one double colon |
| IpGrammar.LexSpelled | src/ip_parser.cpp:135-148 | printed groups are words with single colons between them |
| IpGrammar.AcceptedIff | src/ip_parser.cpp:135-162 | accepted is what has at most one double colon, no number too long to lex, and eight numbers, or fewer with a double colon |
| IpDotted.StrictIff | src/ip_parser.cpp:135-148 | tokens are of the grammar of section 2.2 of RFC 4291 exactly when this can be seen from each token and its neighbours, the last seven tokens and two counts |
| IpDotted.AcceptedIsStrictIff | src/ip_parser.cpp:135-162 | an accepted text is of that grammar exactly when every token goes with its neighbours and a double colon stands for something, where four octets may end a text with a double colon |
| IpDotted.DottedFullOverruns | src/ip_parser.cpp:144-147 | six words and four octets are stored past the array |
| IpDotted.DottedShortRead | src/ip_parser.cpp:144-157 | four octets behind five words and a double colon are stored past the array; behind fewer they are read as four hexadecimal groups |
| IpDotted.DottedReadRightIff | src/ip_parser.cpp:144-157 | a text of a short dotted form is read as the right address exactly when there are at most four words, those behind the double colon and the first three octets are zero, and the last octet is below ten |
| IpDotted.OctetsFromText | src/ip_parser.cpp:62-87 | an octet lexed from a text is read by the same digits as a decimal and as a hexadecimal number |
| IpTexts.DottedTextOverruns | src/ip_parser.cpp:144-147 | six printed groups and four printed bytes are of the grammar and are stored past the array |
| IpTexts.DottedTextMisread | src/ip_parser.cpp:144-157 | fewer printed groups, a double colon and four printed bytes are of the grammar; which groups are read instead |
| IpTexts.MappedAddressMisread | src/ip_parser.cpp:144-157 | a concrete IPv4-mapped address that is read as another one |
| IpTexts.FullDottedOverruns | src/ip_parser.cpp:144-147 | a concrete dotted address that is stored past the array |
| IpTexts.TrailingColonAccepted | src/ip_parser.cpp:135-148 | any printed address with a colon behind it is accepted and not of the grammar |
| IpTexts.ForeignCharacterAccepted | src/ip_parser.cpp:89-91 | a concrete text with a foreign character that is accepted as eight zeros |
| IpTexts.FiveDigitsAccepted | src/ip_parser.cpp:62-87 | a concrete text with a group of five digits that is accepted |
| IpGrammar.NineWordsOverrun | src/ip_parser.cpp:144-147 | more than eight printed groups are stored past the array |
| IpAddress.ReparseV4 | src/ip_parser.cpp:94-127 | the parser itself gives every IPv4 address back |
| IpAddress.ReparseV6 | src/ip_parser.cpp:129-165 | the parser itself gives every IPv6 address back |
| IpAddress.ParseShortened | src/ip_parser.cpp:129-165 | the parser itself expands "a::b" |
| IpCase.SameLexed | src/ip_parser.cpp:62-87 | a text with its letters turned into capitals has the same tokens |
| IpCase.CaseMakesNoDifference | src/ip_parser.cpp:62-87 | texts that differ in the case of digits only mean the same |
| IpCase.CapitalText | src/ip_parser.cpp:84-84 | the digits DB8 are 0x0DB8 |
| IpCase.ReparseCapitals | src/ip_parser.cpp:129-165 | the parser itself gives every IPv6 address printed in capitals back |
| IpCase.ParseShortenedCapitals | src/ip_parser.cpp:129-165 | and expands every shortened one |
| IpTexts.LargeGroupIsCut | src/ip_parser.cpp:84-86 | a group of any size stands for the low 16 bits of what a long can hold of it |
| IpTexts.TooManyDigits | src/ip_parser.cpp:62-80 | more than 63 digits in a row are refused |
| IpTexts.V4TextIff | src/ip_parser.cpp:94-127 | an IPv4 text is accepted exactly when it consists of four decimal numbers of at most 63 digits and 255 in value with dots between them, and means those numbers |

## Left out

- Lz4RoundTrip.CompressAll: the calls go on until one does not fill its buffer; the `finished` flag of the base class is not used for it, because the flag is shadowed and never initialised.
- Lz4RoundTrip.RoundTrip: fresh objects only, because setting a second input does not rewind the read position; non-empty inputs only, because an empty one gives no block.
- Lz4Decompressor.Decompressor.Decompress: what happens on bytes that are the layout of no block, which the source does not check.
- FreeListAllocator.FreeListAllocator.AllocateAlign: sizes that do not fit an address are excluded; after a write near zero, a truncated distance or the search for a truncated size nothing more is said of the heap, and the model leaves it as it was.
- FreeListAllocator.FreeListAllocator.constructor: page sizes that are no multiple of 8, whose low bits would be read as the flags of a block.
- FreeListAllocator.FreeListAllocator.CeilEntry: the balanced tree itself; its contract is taken as insert, remove this node, and least key at or above, and which of several blocks of one size is found is left open.
- FreeListAllocator.FreeListAllocator.Deallocate: only pointers that are live, or null; anything else is outside what the source can notice.
- FreeListAllocator.FreeListAllocator.HandOut: headers, tree nodes and distances are separate maps from addresses; that they do not overlap in memory is proved as `LiveClearOfHeaders` and `LiveClearOfDistances`, and the flag bits inside the size word are separate fields.
- The allocator's move operations, destructor and log, and the other allocators.
- SharedOwnership.RunKeepsInv: one control block, with the counters changed in atomic steps rather than by methods of an object, because what is at stake is their interleaving; fewer than 2^32 handles at a time; memory orders weaker than the default are not used by the source.
- SharedHandles.ControlBlock.TryIncStrong: with one thread the exchange does not fail, so its loop is not there; `SharedOwnership.LockIsLinearizable` and `SharedOwnership.LockSeesTheCount` are about the loop, and `SharedCalls.LockEnds` about whole calls.
- SharedHandles.SharedPtr.Assign: objects have no members here; when a source handle that is one survives the release is the subject of `SharedNesting.SafeToAssignIff`.
- SharedHandles.SharedPtr.MoveAssign: move construction, and moving weak handles, are only among the steps of `SharedOwnership`.
- SharedOwnership.StepKeepsInv: objects have no members; a handle is not released or moved while another thread copies or locks it.
- Pointer casts, the array form, custom deleters and allocation of the control block.
- AtlasPacker.ImagePacker.CreateTree: what the loop does once a side has overflowed; exactly when that happens is part of the contract.
- AtlasPacker.ImagePacker.Pack: scale 1, and an atlas of three or four channels; the resampling for larger scales and the conversion to one channel are floating point, so for those scales only the rectangles are treated (`ScaledStaysApart`). The packer starts without a tree. What follows an int overflow, exactly when there is one being part of the contract.
- AtlasImage.Image.SetPixel: images of one channel, for the same reason; an image whose size overflows an int is neither read nor written.
- AtlasImage.Image.GetPixel: images whose size overflows an int.
- Texture coordinates, image files and the moving of packers and nodes.
- HashMap.HashMap.InsertEntry: keys and values are copied; the source takes the bucket from the key after it has been forwarded, which for a moved key reads what the move left. Keys are equal exactly when they are the same value, so equal keys have equal hashes.
- HashMap.HashMap.EnsureCapacity: the load factor is compared in exact arithmetic instead of single precision.
- Iterators, bulk insertion, comparison and moving of maps, and the linked map with its eviction order.
- SmoothNoise.Get: what follows a signed overflow, which the language leaves undefined; curves that leave [0,1] are applied in unbounded integers; the result is the Q16 value before its conversion to a float. An int is taken to have 32 bits and a long 64.
- SmoothNoise.Get0Between: the hash of a corner and the random buffer are one parameter, the value at a corner.
- IpParser.IpParser.ParseV6: what follows a store past the end of the array.
- Lz4EndRule.EndRuleKept: one way for a single input; whether a recurrence at a late position becomes a match depends on the whole scan before it.
- IpAddress.RoundTripV4: the address part of the printed form, without the host name and slash before it; buffers are large enough. The machine is taken to store low bytes first, as the source does.
- IpLexer.First: characters are compared as the C locale does; a long is taken to have 64 bits.
- Sockets, files, threads, dates, logging, strings, vectors and matrices.
